/** kernel/src/mm/kmalloc.c over kernel/src/mm/kvm.c: headers stored in memory and linked by address.

    `mem[a]` is the 32-bit word at byte address a; the code only ever reads and writes aligned words.  A header
    is four words: size, status, next, prev.  Address 0 is NULL. */
module KernelHeap {
  import opened Arith
  import opened Layout
  import opened HeapPlacement
  import opened HeapSpec
  import opened HeapTheorems

  const FAILED: nat := 0xFFFF_FFFF   // (void*)-1
  const KMALLOC_FREE := 1
  const KMALLOC_RES := 0

  ghost function NextAddr(bs: seq<Block>, i: nat): nat
    requires i < |bs|
  {
    if i + 1 < |bs| then bs[i + 1].addr else 0
  }

  ghost function PrevAddr(bs: seq<Block>, i: nat): nat
    requires i < |bs|
  {
    if i > 0 then bs[i - 1].addr else 0
  }

  /** The four words at address a. */
  ghost predicate Words(m: seq<int>, a: nat, size: int, free: bool, next: int, prev: int) {
    && 0 < a && a + NODE_SIZE <= |m|
    && m[a] == size
    && m[a + 4] == (if free then KMALLOC_FREE else KMALLOC_RES)
    && m[a + 8] == next
    && m[a + 12] == prev
  }

  /** Memory m holds the header of block i of the list. */
  ghost predicate Header(m: seq<int>, bs: seq<Block>, i: nat)
    requires i < |bs|
  {
    Words(m, bs[i].addr, bs[i].size, bs[i].free, NextAddr(bs, i), PrevAddr(bs, i))
  }

  ghost predicate Headers(m: seq<int>, bs: seq<Block>) {
    forall i :: 0 <= i < |bs| ==> Header(m, bs, i)
  }

  /** Payload words of the reserved blocks of bs are the same in both memories. */
  ghost predicate SamePayloads(m0: seq<int>, m1: seq<int>, bs: seq<Block>) {
    && |m0| == |m1|
    && forall b, a :: b in Reserved(bs) && b.Payload() <= a < b.End() && a < |m0| ==> m0[a] == m1[a]
  }

  /** The memories differ at most in [lo, hi) and at address x. */
  ghost predicate SameOutside(m0: seq<int>, m1: seq<int>, lo: int, hi: int, x: int) {
    && |m0| == |m1|
    && forall a :: 0 <= a < |m0| && !(lo <= a < hi) && a != x ==> m0[a] == m1[a]
  }

  /** Header of piece j of those that replace block k. */
  ghost predicate PieceHeader(m: seq<int>, bs: seq<Block>, k: nat, ps: seq<Block>, j: nat)
    requires k < |bs| && j < |ps|
  {
    Words(m, ps[j].addr, ps[j].size, ps[j].free,
          if j + 1 < |ps| then ps[j + 1].addr else NextAddr(bs, k),
          if j > 0 then ps[j - 1].addr else PrevAddr(bs, k))
  }

  ghost predicate PieceHeaders(m: seq<int>, bs: seq<Block>, k: nat, ps: seq<Block>)
    requires k < |bs|
  {
    forall j :: 0 <= j < |ps| ==> PieceHeader(m, bs, k, ps, j)
  }

  lemma WordsKept(m0: seq<int>, m1: seq<int>, lo: int, hi: int, x: int, a: nat, size: int, free: bool, next: int, prev: int)
    requires SameOutside(m0, m1, lo, hi, x) && Words(m0, a, size, free, next, prev)
    requires a + NODE_SIZE <= lo || hi <= a
    ensures x < a || a + NODE_SIZE <= x ==> Words(m1, a, size, free, next, prev)
    ensures x == a + 12 ==> Words(m1, a, size, free, next, m1[x])
  {
  }

  /** Address of the word outside block k that a change of block k rewrites: the back link of its successor. */
  ghost function BackLink(bs: seq<Block>, k: nat): int
    requires k < |bs|
  {
    if k + 1 < |bs| then bs[k + 1].addr + 12 else -1
  }

  lemma KeptBefore(m0: seq<int>, m1: seq<int>, bs: seq<Block>, k: nat, i: nat)
    requires i < k < |bs| && Header(m0, bs, i) && Chained(bs)
    requires SameOutside(m0, m1, bs[k].addr, bs[k].End(), BackLink(bs, k))
    ensures Header(m1, bs, i)
  {
    Ordered(bs, i, k);
    if k + 1 < |bs| {
      Ordered(bs, i, k + 1);
    }
    WordsKept(m0, m1, bs[k].addr, bs[k].End(), BackLink(bs, k),
              bs[i].addr, bs[i].size, bs[i].free, NextAddr(bs, i), PrevAddr(bs, i));
  }

  lemma KeptAfter(m0: seq<int>, m1: seq<int>, bs: seq<Block>, k: nat, i: nat)
    requires k < i < |bs| && Header(m0, bs, i) && Chained(bs)
    requires SameOutside(m0, m1, bs[k].addr, bs[k].End(), BackLink(bs, k))
    ensures Words(m1, bs[i].addr, bs[i].size, bs[i].free, NextAddr(bs, i),
                  if i == k + 1 then m1[BackLink(bs, k)] else PrevAddr(bs, i))
  {
    Ordered(bs, k, i);
    if k + 1 < i {
      Ordered(bs, k + 1, i);
    }
    WordsKept(m0, m1, bs[k].addr, bs[k].End(), BackLink(bs, k),
              bs[i].addr, bs[i].size, bs[i].free, NextAddr(bs, i), PrevAddr(bs, i));
  }

  lemma PayloadsKept(m0: seq<int>, m1: seq<int>, bs: seq<Block>, k: nat)
    requires k < |bs| && Chained(bs)
    requires SameOutside(m0, m1, bs[k].addr, bs[k].End(), BackLink(bs, k))
    ensures bs[k].free ==> SamePayloads(m0, m1, bs)
  {
    OrderedAll(bs);
  }

  /** Header words of the list are not payload. */
  lemma MergeKeepsPayloads(m0: seq<int>, m1: seq<int>, bs: seq<Block>, k: nat)
    requires k + 1 < |bs| && Chained(bs)
    requires SameOutside(m0, m1, bs[k].addr, bs[k].addr + NODE_SIZE, BackLink(bs, k + 1))
    ensures SamePayloads(m0, m1, bs)
  {
    OrderedAll(bs);
  }

  /** Rewriting the inside of free block k and the back link of its successor gives the headers of the new list. */
  lemma SpliceHeaders(m0: seq<int>, m1: seq<int>, bs: seq<Block>, k: nat, ps: seq<Block>)
    requires k < |bs| && Headers(m0, bs) && Chained(bs)
    requires Tiles(ps, bs[k].addr, bs[k].End()) && PieceHeaders(m1, bs, k, ps)
    requires SameOutside(m0, m1, bs[k].addr, bs[k].End(), BackLink(bs, k))
    requires k + 1 < |bs| ==> BackLink(bs, k) < |m1| && m1[BackLink(bs, k)] == Last(ps).addr
    ensures Headers(m1, Splice(bs, k, ps))
  {
    var r, n := Splice(bs, k, ps), |ps|;
    forall i | 0 <= i < |r|
      ensures Header(m1, r, i)
    {
      if i < k {
        assert Header(m0, bs, i);
        KeptBefore(m0, m1, bs, k, i);
        assert r[i] == bs[i] && NextAddr(r, i) == NextAddr(bs, i) && PrevAddr(r, i) == PrevAddr(bs, i);
      } else if i < k + n {
        assert PieceHeader(m1, bs, k, ps, i - k);
        assert r[i] == ps[i - k];
      } else {
        var o := i - n + 1;
        assert Header(m0, bs, o);
        KeptAfter(m0, m1, bs, k, o);
        assert r[i] == bs[o] && NextAddr(r, i) == NextAddr(bs, o);
        assert o != k + 1 ==> r[i - 1] == bs[o - 1];
        assert o == k + 1 ==> r[i - 1] == Last(ps);
      }
    }
  }

  lemma OrderedAll(bs: seq<Block>)
    requires Chained(bs)
    ensures forall i, j :: 0 <= i < j < |bs| ==> bs[i].End() <= bs[j].addr
  {
    forall i, j | 0 <= i < j < |bs|
      ensures bs[i].End() <= bs[j].addr
    {
      Ordered(bs, i, j);
    }
  }

  /** Where block k ends: at its successor or at the end of the heap. */
  lemma NodeEnd(bs: seq<Block>, k: nat, lo: nat, hi: nat)
    requires k < |bs| && Tiles(bs, lo, hi)
    ensures bs[k].End() == (if k + 1 < |bs| then NextAddr(bs, k) else hi) && bs[k].End() <= hi && lo <= bs[k].addr
    ensures k + 1 < |bs| ==> bs[k + 1].End() <= hi
  {
    if k > 0 {
      Ordered(bs, 0, k);
    }
    if k + 1 < |bs| - 1 {
      Ordered(bs, k + 1, |bs| - 1);
    }
  }

  /** Rewriting the size of the last block and nothing else below the break. */
  lemma ResizeHeaders(m0: seq<int>, m1: seq<int>, bs: seq<Block>, size: nat, lo: nat, hi: nat)
    requires bs != [] && Headers(m0, bs) && Tiles(bs, lo, hi) && |m0| == |m1|
    requires Last(bs).addr < |m1| && m1[Last(bs).addr] == size
    requires forall a :: 0 <= a < |m0| && a < hi && a != Last(bs).addr ==> m0[a] == m1[a]
    ensures Headers(m1, ResizeLast(bs, size))
    ensures Last(bs).free ==> SamePayloads(m0, m1, bs)
  {
    OrderedAll(bs);
    var r, k := ResizeLast(bs, size), |bs| - 1;
    forall i | 0 <= i < |r|
      ensures Header(m1, r, i)
    {
      assert Header(m0, bs, i);
      assert i < k ==> bs[i].End() <= bs[k].addr;
    }
  }

  /** The first fit is determined by its two properties. */
  lemma FirstFitIs(bs: seq<Block>, size: nat, align: nat, k: nat)
    requires k < |bs| && align > 0
    requires forall i :: 0 <= i < k && i < |bs| - 1 ==> !Fits(bs[i], size, align)
    requires k < |bs| - 1 ==> Fits(bs[k], size, align)
    ensures FirstFit(bs, 0, size, align) == k
  {
  }

  /** Block k absorbs block k + 1. */
  lemma MergeHeaders(m0: seq<int>, m1: seq<int>, bs: seq<Block>, k: nat)
    requires k + 1 < |bs| && Headers(m0, bs) && Chained(bs)
    requires Words(m1, bs[k].addr, bs[k].size + bs[k + 1].size + NODE_SIZE, bs[k].free, NextAddr(bs, k + 1), PrevAddr(bs, k))
    requires SameOutside(m0, m1, bs[k].addr, bs[k].addr + NODE_SIZE, BackLink(bs, k + 1))
    requires k + 2 < |bs| ==> BackLink(bs, k + 1) < |m1| && m1[BackLink(bs, k + 1)] == bs[k].addr
    ensures Headers(m1, Merge(bs, k))
  {
    var r := Merge(bs, k);
    MergeAt(bs, k);
    forall i | 0 <= i < |r|
      ensures Header(m1, r, i)
    {
      if i < k {
        assert Header(m0, bs, i);
        Ordered(bs, i, k);
        if k + 2 < |bs| {
          Ordered(bs, i, k + 2);
        }
        WordsKept(m0, m1, bs[k].addr, bs[k].addr + NODE_SIZE, BackLink(bs, k + 1),
                  bs[i].addr, bs[i].size, bs[i].free, NextAddr(bs, i), PrevAddr(bs, i));
      } else if i > k {
        var o := i + 1;
        assert Header(m0, bs, o);
        Ordered(bs, k, o);
        if k + 2 < o {
          Ordered(bs, k + 2, o);
        }
        WordsKept(m0, m1, bs[k].addr, bs[k].addr + NODE_SIZE, BackLink(bs, k + 1),
                  bs[o].addr, bs[o].size, bs[o].free, NextAddr(bs, o), PrevAddr(bs, o));
      }
    }
  }

  lemma GrowNothing(h: Heap, size: nat)
    requires h.blocks != [] && Last(h.blocks).size >= size + PAGE_SIZE
    ensures Grow(h, size) == h
  {
    assert ResizeLast(h.blocks, Last(h.blocks).size) == h.blocks;
  }

  /** Both ends of the room above the break are page boundaries, so whole pages fit as soon as the bytes do. */
  lemma RoomForPages(start: nat, size: nat, n: nat)
    requires (start + size) % PAGE_SIZE == 0 && start + size + n <= KSTACK_BEGIN
    ensures forall p: nat :: 4096 * p < n ==> start + size + 4096 * p + 4096 <= KSTACK_BEGIN
  {
    assert KSTACK_BEGIN == 4096 * 64512;
    var u := (start + size) / 4096;
    assert start + size == 4096 * u;
  }

  lemma MarkFree(m0: seq<int>, m1: seq<int>, bs: seq<Block>, k: nat)
    requires k < |bs| && Headers(m0, bs) && Chained(bs)
    requires bs[k].addr + 4 < |m0| && m1 == m0[bs[k].addr + 4 := KMALLOC_FREE]
    ensures Headers(m1, MarkedFree(bs, k)) && SamePayloads(m0, m1, MarkedFree(bs, k))
  {
    OrderedAll(bs);
    var b1 := MarkedFree(bs, k);
    forall i | 0 <= i < |b1|
      ensures Header(m1, b1, i)
    {
      assert Header(m0, bs, i) && Header(m0, bs, k);
    }
    forall b, a | b in Reserved(b1) && b.Payload() <= a < b.End() && a < |m0|
      ensures m0[a] == m1[a]
    {
      var i :| 0 <= i < |b1| && b1[i] == b;
      assert Header(m0, bs, k) && bs[i] == b;
    }
  }

  /** Merging two free blocks keeps the reserved ones, so payload equalities carry over. */
  lemma RightPayloads(m0: seq<int>, m1: seq<int>, m2: seq<int>, bs: seq<Block>, k: nat)
    requires k < |bs| && bs[k].free && SamePayloads(m0, m1, bs) && SamePayloads(m1, m2, MergedRight(bs, k))
    ensures SamePayloads(m0, m2, MergedRight(bs, k))
  {
    if k + 1 < |bs| && bs[k + 1].free {
      MergeReserved(bs, k);
    }
  }

  lemma LeftPayloads(m0: seq<int>, m1: seq<int>, m2: seq<int>, bs: seq<Block>, k: nat)
    requires k < |bs| && bs[k].free && SamePayloads(m0, m1, bs) && SamePayloads(m1, m2, MergedLeft(bs, k))
    ensures SamePayloads(m0, m2, MergedLeft(bs, k))
  {
    if k > 0 && bs[k - 1].free {
      MergeReserved(bs, k - 1);
    }
  }

  lemma ReleaseFacts(bs: seq<Block>, k: nat, lo: nat, hi: nat)
    requires k < |bs| && ValidBlocks(bs, lo, hi) && !bs[k].free
    ensures Chained(MarkedFree(bs, k)) && MarkedFree(bs, k)[k].free
    ensures Chained(MergedRight(MarkedFree(bs, k), k))
    ensures ValidBlocks(HeapSpec.Release(bs, k), lo, hi) && ReleasedAt(bs, k) < |HeapSpec.Release(bs, k)|
    ensures HeapSpec.Release(bs, k)[ReleasedAt(bs, k)].addr == bs[ReleasedAt(bs, k)].addr
  {
    ReleaseRight(bs, k, lo, hi);
    ReleaseValid(bs, k, lo, hi);
  }

  lemma TrimPayloads(m0: seq<int>, m1: seq<int>, m2: seq<int>, h: Heap, j: nat)
    requires HeapSpec.Valid(h) && j < |h.blocks| && SamePayloads(m0, m1, h.blocks)
    requires SamePayloads(m1, m2, Trimmed(h, j).blocks)
    ensures SamePayloads(m0, m2, Trimmed(h, j).blocks)
  {
    ResizeReserved(h.blocks, Last(Trimmed(h, j).blocks).size);
  }

  lemma SameOutsideBoth(m0: seq<int>, m1: seq<int>, m2: seq<int>, lo: int, mid: int, lo2: int, hi: int, x: int)
    requires SameOutside(m0, m1, lo, mid, -1) && SameOutside(m1, m2, lo2, hi, x) && lo <= lo2 && mid <= hi
    ensures SameOutside(m0, m2, lo, hi, x)
  {
  }

  /** The size computed for the padded node is never the requested one, not even when there is no successor and
      the subtraction wraps: there is always something left to cut off. */
  lemma WrappedSize(next: nat, cur: nat, size: nat, end: nat)
    requires next == 0 || next == end
    requires cur + size + 2 * NODE_SIZE <= end <= KSTACK_BEGIN && size < INT32
    ensures (next - cur - NODE_SIZE) % 0x1_0000_0000 != size
  {
    if next == 0 {
      DivModUnique(0 - cur - NODE_SIZE, 0x1_0000_0000, -1, 0x1_0000_0000 - cur - NODE_SIZE);
    }
  }

  /** The headers written when a padding node goes in front. */
  lemma ThreePieces(m1: seq<int>, m2: seq<int>, bs: seq<Block>, k: nat, size: nat, pad: nat)
    requires k < |bs| && 32 <= pad && pad % 16 == 0 && bs[k].size % 16 == 0 && size % 16 == 0 && bs[k].size >= size + pad
    requires Words(m1, bs[k].addr, pad - 2 * NODE_SIZE, true, bs[k].addr + pad - NODE_SIZE, PrevAddr(bs, k))
    requires var cur := bs[k].addr + pad - NODE_SIZE;
             && Words(m2, cur, size, false, cur + NODE_SIZE + size, bs[k].addr)
             && Words(m2, cur + NODE_SIZE + size, bs[k].size - pad - size, true, NextAddr(bs, k), cur)
             && SameOutside(m1, m2, cur, bs[k].End(), BackLink(bs, k))
    requires k + 1 < |bs| ==> bs[k].End() <= BackLink(bs, k)
    ensures PieceHeaders(m2, bs, k, PaddedPieces(bs[k], size, pad))
  {
    var ps := PaddedPieces(bs[k], size, pad);
    WordsKept(m1, m2, bs[k].addr + pad - NODE_SIZE, bs[k].End(), BackLink(bs, k),
              bs[k].addr, pad - 2 * NODE_SIZE, true, bs[k].addr + pad - NODE_SIZE, PrevAddr(bs, k));
    assert PieceHeader(m2, bs, k, ps, 0) && PieceHeader(m2, bs, k, ps, 1) && PieceHeader(m2, bs, k, ps, 2);
  }

  /** From the writes of `Reserve` alone to the headers of the new list. */
  lemma PlainHeaders(m0: seq<int>, m1: seq<int>, bs: seq<Block>, k: nat, size: nat)
    requires k < |bs| && Headers(m0, bs) && Chained(bs) && bs[k].size % 16 == 0 && size % 16 == 0 && bs[k].size >= size && |m0| == |m1|
    requires k + 1 < |bs| ==> bs[k].End() <= BackLink(bs, k) < |m1| && m0[BackLink(bs, k)] == bs[k].addr
    requires bs[k].size == size ==>
               Words(m1, bs[k].addr, size, false, NextAddr(bs, k), PrevAddr(bs, k)) && SameOutside(m0, m1, bs[k].addr, bs[k].End(), -1)
    requires bs[k].size != size ==>
               var rest := bs[k].addr + NODE_SIZE + size;
               && Words(m1, bs[k].addr, size, false, rest, PrevAddr(bs, k))
               && Words(m1, rest, bs[k].size - size - NODE_SIZE, true, NextAddr(bs, k), bs[k].addr)
               && SameOutside(m0, m1, bs[k].addr, bs[k].End(), BackLink(bs, k))
               && (k + 1 < |bs| ==> m1[BackLink(bs, k)] == rest)
    ensures Headers(m1, Splice(bs, k, PaddedPieces(bs[k], size, 0)))
    ensures SameOutside(m0, m1, bs[k].addr, bs[k].End(), BackLink(bs, k))
  {
    var ps := PaddedPieces(bs[k], size, 0);
    PaddedPiecesTile(bs[k], size, 0);
    assert PieceHeader(m1, bs, k, ps, 0);
    assert |ps| == 2 ==> PieceHeader(m1, bs, k, ps, 1);
    SpliceHeaders(m0, m1, bs, k, ps);
  }

  /** From the writes of `PadFront` and `Reserve` to the headers of the new list. */
  lemma PaddedHeaders(m0: seq<int>, m1: seq<int>, m2: seq<int>, bs: seq<Block>, k: nat, size: nat, pad: nat)
    requires k < |bs| && 32 <= pad && pad % 16 == 0 && bs[k].size % 16 == 0 && size % 16 == 0 && bs[k].size >= size + pad
    requires Headers(m0, bs) && Chained(bs) && SameOutside(m0, m1, bs[k].addr, bs[k].addr + pad, -1)
    requires Words(m1, bs[k].addr, pad - 2 * NODE_SIZE, true, bs[k].addr + pad - NODE_SIZE, PrevAddr(bs, k))
    requires var cur := bs[k].addr + pad - NODE_SIZE;
             && Words(m2, cur, size, false, cur + NODE_SIZE + size, bs[k].addr)
             && Words(m2, cur + NODE_SIZE + size, bs[k].size - pad - size, true, NextAddr(bs, k), cur)
             && SameOutside(m1, m2, cur, bs[k].End(), BackLink(bs, k))
    requires k + 1 < |bs| ==> bs[k].End() <= BackLink(bs, k) < |m2|
    requires k + 1 < |bs| ==> m2[BackLink(bs, k)] == bs[k].addr + pad + size
    ensures Headers(m2, Splice(bs, k, PaddedPieces(bs[k], size, pad)))
    ensures SameOutside(m0, m2, bs[k].addr, bs[k].End(), BackLink(bs, k))
  {
    var b, cur := bs[k], bs[k].addr + pad - NODE_SIZE;
    SameOutsideBoth(m0, m1, m2, b.addr, cur + NODE_SIZE, cur, b.End(), BackLink(bs, k));
    ThreePieces(m1, m2, bs, k, size, pad);
    PaddedPiecesTile(b, size, pad);
    SpliceHeaders(m0, m2, bs, k, PaddedPieces(b, size, pad));
  }

  class KHeap {
    const mem: array<int>
    const kvmStart: nat      // kheap_start of kvm.c
    var kvmSize: nat         // kheap_size of kvm.c
    var kheapStart: nat      // kheap_start of kmalloc.c
    var kheapEnd: nat
    ghost var blocks: seq<Block>

    ghost function View(): Heap
      reads this
    {
      Heap(kvmStart, kvmStart + kvmSize, blocks, kheapStart == FAILED)
    }

    ghost predicate Valid()
      reads this, mem
    {
      && mem.Length == KSTACK_BEGIN
      && HeapSpec.Valid(View())
      && (blocks == [] <==> kheapStart == 0 || kheapStart == FAILED)
      && (blocks != [] ==> kheapStart == kvmStart && kheapEnd == kvmStart + kvmSize && Headers(mem[..], blocks))
    }

    constructor (start: nat)
      requires 0 < start <= KSTACK_BEGIN && start % PAGE_SIZE == 0
      ensures Valid() && View() == Heap(start, start, [], false)
    {
      mem := new int[KSTACK_BEGIN];
      kvmStart, kvmSize, kheapStart, kheapEnd, blocks := start, 0, 0, 0, [];
    }

    /** `ksbrk`: move the break by whole pages; refuse before moving anything.  A rise is refused exactly when the bytes
        do not fit below the kernel stack.  A fall is tested on the 32-bit sum, so an increment that goes below
        address 0 is not refused and the size wraps. */
    method Ksbrk(incr: int) returns (ret: nat)
      requires mem.Length == KSTACK_BEGIN && kvmStart + kvmSize <= KSTACK_BEGIN && -INT32 <= incr < INT32
      requires (kvmStart + kvmSize) % PAGE_SIZE == 0
      modifies this`kvmSize, mem
      ensures ret == FAILED <==>
              || (incr > 0 && PastLimit(kvmStart + old(kvmSize), incr))
              || (incr < 0 && !ShrinkAccepted(kvmStart, kvmStart + old(kvmSize), incr))
      ensures ret != FAILED ==> ret == kvmStart + old(kvmSize)
      ensures ret == FAILED || incr == 0 ==> kvmSize == old(kvmSize)
      ensures ret != FAILED && incr > 0 ==> kvmSize == old(kvmSize) + PageUp(incr)
      ensures ret != FAILED && incr < 0 ==> kvmSize == (ShrunkEnd(kvmStart + old(kvmSize), incr) - kvmStart) % WORD
      ensures forall a :: 0 <= a < mem.Length && a < kvmStart + old(kvmSize) ==> mem[a] == old(mem[a])
    {
      ret := kvmStart + kvmSize;
      var left := incr;
      ghost var pages := 0;
      if left > 0 {
        if (kvmStart + kvmSize + left) % WORD > KSTACK_BEGIN { return FAILED; }
        RoomForPages(kvmStart, kvmSize, incr);
        while left > 0
          invariant pages >= 0 && kvmSize == old(kvmSize) + 4096 * pages && left == incr - 4096 * pages > -4096
          invariant forall a :: 0 <= a < mem.Length && a < kvmStart + old(kvmSize) ==> mem[a] == old(mem[a])
        {
          KvmPageAllocZeroed();
          left := left - PAGE_SIZE;
          pages := pages + 1;
        }
        DivModUnique(incr + 4095, 4096, pages, left + 4095);
      } else if left < 0 {
        if (kvmStart + kvmSize + left) % WORD < kvmStart { return FAILED; }
        Lower(left);
      }
    }

    /** The falling loop of `ksbrk`: only whole pages. */
    method Lower(incr: int)
      requires incr < 0 && kvmSize < WORD
      modifies this`kvmSize
      ensures kvmSize == (old(kvmSize) - -incr / PAGE_SIZE * PAGE_SIZE) % WORD
    {
      var left := incr + PAGE_SIZE - 1;
      ghost var pages := 0;
      while left < 0
        invariant pages >= 0 && kvmSize == (old(kvmSize) - 4096 * pages) % WORD && left == incr + 4095 + 4096 * pages < 4096
      {
        WrapStep(old(kvmSize) - 4096 * pages, 4096, WORD);
        kvmSize := (kvmSize - PAGE_SIZE) % WORD;
        left := left + PAGE_SIZE;
        pages := pages + 1;
      }
      DivModUnique(-incr, 4096, pages, 4095 - left);
    }

    /** `kvm_page_alloc_zeroed`: the page above the break is mapped and cleared. */
    method KvmPageAllocZeroed()
      requires kvmStart + kvmSize + PAGE_SIZE <= mem.Length
      modifies this`kvmSize, mem
      ensures kvmSize == old(kvmSize) + PAGE_SIZE
      ensures forall a :: 0 <= a < mem.Length && a < kvmStart + old(kvmSize) ==> mem[a] == old(mem[a])
      ensures forall a :: kvmStart + old(kvmSize) <= a < kvmStart + kvmSize ==> mem[a] == 0
    {
      forall a | kvmStart + kvmSize <= a < kvmStart + kvmSize + PAGE_SIZE {
        mem[a] := 0;
      }
      kvmSize := kvmSize + PAGE_SIZE;
    }

    /** Lines 137-147: turn the front of the node into a padding node. */
    method PadFront(node: nat, pad: nat) returns (cur: nat)
      requires 32 <= pad && pad % 16 == 0 && node + pad + NODE_SIZE <= mem.Length
      modifies mem
      ensures cur == node + pad - NODE_SIZE
      ensures mem[node] == pad - 2 * NODE_SIZE && mem[node + 4] == KMALLOC_FREE && mem[node + 8] == cur
      ensures mem[cur] == (old(mem[node + 8]) - cur - NODE_SIZE) % 0x1_0000_0000
      ensures mem[cur + 8] == old(mem[node + 8]) && mem[cur + 12] == node && mem[node + 12] == old(mem[node + 12])
      ensures SameOutside(old(mem[..]), mem[..], node, cur + NODE_SIZE, -1)
    {
      cur := node + pad - NODE_SIZE;
      mem[node] := pad - 2 * NODE_SIZE;
      mem[node + 4] := KMALLOC_FREE;
      mem[cur + 8] := mem[node + 8];
      mem[node + 8] := cur;
      mem[cur + 12] := node;
      mem[cur] := (mem[cur + 8] - cur - NODE_SIZE) % 0x1_0000_0000;
    }

    /** Lines 153-168: a free node after the first `size` bytes of cur. */
    method SplitRest(cur: nat, size: nat, ghost next: nat, ghost end: nat)
      requires cur + size + 32 <= end <= mem.Length && size % 16 == 0
      requires mem[cur + 8] == next && (if next != 0 then next == end && next + NODE_SIZE <= mem.Length else kheapEnd == end)
      modifies mem
      ensures var rest := cur + NODE_SIZE + size;
              && Words(mem[..], rest, end - rest - NODE_SIZE, true, next, cur)
              && mem[cur + 8] == rest
              && (next != 0 ==> mem[next + 12] == rest)
              && (forall a :: 0 <= a < mem.Length && a != cur + 8 && !(rest <= a < rest + NODE_SIZE) && (next != 0 ==> a != next + 12)
                    ==> mem[a] == old(mem[a]))
    {
      var rest := cur + NODE_SIZE + size;
      mem[rest + 12] := cur;
      mem[rest + 8] := mem[cur + 8];
      if mem[rest + 8] != 0 {
        mem[rest] := mem[rest + 8] - rest - NODE_SIZE;
        mem[mem[rest + 8] + 12] := rest;
      } else {
        mem[rest] := kheapEnd - rest - NODE_SIZE;
      }
      mem[rest + 4] := KMALLOC_FREE;
      mem[cur + 8] := rest;
    }

    /** Lines 150-172: cut off what is left after `size` bytes, if anything, and reserve the node. */
    method Reserve(cur: nat, size: nat, ghost next: nat, ghost end: nat)
      requires 0 < cur && cur + size + NODE_SIZE <= end <= mem.Length && size % 16 == 0
      requires mem[cur] != size ==> cur + size + 32 <= end
      requires mem[cur + 8] == next
      requires if next != 0 then next == end && next + NODE_SIZE <= mem.Length else kheapEnd == end
      modifies mem
      ensures old(mem[cur]) == size ==>
              && Words(mem[..], cur, size, false, next, old(mem[cur + 12]))
              && SameOutside(old(mem[..]), mem[..], cur, end, -1)
      ensures old(mem[cur]) != size ==>
              && var rest := cur + NODE_SIZE + size;
              && Words(mem[..], cur, size, false, rest, old(mem[cur + 12]))
              && Words(mem[..], rest, end - rest - NODE_SIZE, true, next, cur)
              && SameOutside(old(mem[..]), mem[..], cur, end, if next != 0 then next + 12 else -1)
              && (next != 0 ==> mem[next + 12] == rest)
    {
      if mem[cur] != size {
        SplitRest(cur, size, next, end);
      }
      mem[cur] := size;
      mem[cur + 4] := KMALLOC_RES;
    }

    /** Lines 133-174 when the node needs no padding node. */
    method CarvePlain(node: nat, ghost k: nat, size: nat)
      requires mem.Length == KSTACK_BEGIN && k < |blocks| && blocks[k].addr == node
      requires Headers(mem[..], blocks) && Tiles(blocks, kheapStart, kheapEnd) && 0 < kheapStart <= kheapEnd <= KSTACK_BEGIN
      requires Aligned(blocks) && 0 < size < INT32 && size % 16 == 0 && blocks[k].free && blocks[k].size >= size
      modifies this`blocks, mem
      ensures blocks == Splice(old(blocks), k, PaddedPieces(old(blocks)[k], size, 0))
      ensures Headers(mem[..], blocks)
      ensures SameOutside(old(mem[..]), mem[..], node, old(blocks)[k].End(), BackLink(old(blocks), k))
    {
      ghost var bs, b, m0 := blocks, blocks[k], mem[..];
      ghost var ps := PaddedPieces(b, size, 0);
      assert Header(m0, bs, k);
      assert k + 1 < |bs| ==> Header(m0, bs, k + 1);
      NodeEnd(bs, k, kheapStart, kheapEnd);
      Reserve(node, size, NextAddr(bs, k), b.End());
      PlainHeaders(m0, mem[..], bs, k, size);
      blocks := Splice(bs, k, ps);
    }

    /** Lines 133-174 when a padding node goes in front. */
    method CarvePadded(node: nat, ghost k: nat, size: nat, pad: nat) returns (cur: nat)
      requires mem.Length == KSTACK_BEGIN && k < |blocks| && blocks[k].addr == node
      requires Headers(mem[..], blocks) && Tiles(blocks, kheapStart, kheapEnd) && 0 < kheapStart <= kheapEnd <= KSTACK_BEGIN
      requires Aligned(blocks) && 0 < size < INT32 && size % 16 == 0 && 32 <= pad && pad % 16 == 0
      requires blocks[k].free && blocks[k].size >= size + pad
      modifies this`blocks, mem
      ensures blocks == Splice(old(blocks), k, PaddedPieces(old(blocks)[k], size, pad))
      ensures Headers(mem[..], blocks) && cur == node + pad - NODE_SIZE
      ensures SameOutside(old(mem[..]), mem[..], node, old(blocks)[k].End(), BackLink(old(blocks), k))
    {
      ghost var bs, b, m0 := blocks, blocks[k], mem[..];
      ghost var ps := PaddedPieces(b, size, pad);
      assert Header(m0, bs, k);
      assert k + 1 < |bs| ==> Header(m0, bs, k + 1);
      NodeEnd(bs, k, kheapStart, kheapEnd);
      cur := PadFront(node, pad);
      ghost var m1 := mem[..];
      assert Words(m1, node, pad - 2 * NODE_SIZE, true, cur, PrevAddr(bs, k));
      WrappedSize(NextAddr(bs, k), cur, size, b.End());
      Reserve(cur, size, NextAddr(bs, k), b.End());
      PaddedHeaders(m0, m1, mem[..], bs, k, size, pad);
      blocks := Splice(bs, k, ps);
    }

    /** Lines 103-111: raise the break by n bytes and give the new pages to the last node. */
    method GrowBy(node: nat, n: nat) returns (ok: bool)
      requires mem.Length == KSTACK_BEGIN && kvmStart + kvmSize <= KSTACK_BEGIN
      requires (kvmStart + kvmSize) % PAGE_SIZE == 0 && 0 < n < INT32
      requires Headers(mem[..], blocks) && Tiles(blocks, kvmStart, kvmStart + kvmSize)
      requires node == Last(blocks).addr && Last(blocks).free
      modifies this`kvmSize, this`kheapEnd, this`blocks, mem
      ensures ok == !PastLimit(kvmStart + old(kvmSize), n)
      ensures kvmSize == (if ok then old(kvmSize) + PageUp(n) else old(kvmSize)) && kheapEnd == kvmStart + kvmSize
      ensures blocks == ResizeLast(old(blocks), Last(old(blocks)).size + if ok then PageUp(n) else 0)
      ensures Headers(mem[..], blocks) && SamePayloads(old(mem[..]), mem[..], old(blocks))
    {
      ghost var bs, m0, hi := blocks, mem[..], kvmStart + kvmSize;
      assert Header(m0, bs, |bs| - 1);
      NodeEnd(bs, |bs| - 1, kvmStart, hi);
      var prevEnd := Ksbrk(n);
      kheapEnd := kvmStart + kvmSize;
      assert mem[node] == m0[node];
      ok := prevEnd != FAILED;
      if ok {
        mem[node] := mem[node] + (kheapEnd - prevEnd);
      }
      ResizeHeaders(m0, mem[..], bs, mem[node], kvmStart, hi);
      blocks := ResizeLast(bs, mem[node]);
    }

    /** Lines 98-113: make the last node hold the request and a page more. */
    method Enlarge(node: nat, size: nat) returns (ok: bool)
      requires Valid() && blocks != [] && node == Last(blocks).addr && size % 16 == 0 && size + PAGE_SIZE < INT32
      modifies this`kvmSize, this`kheapEnd, this`blocks, mem
      ensures Valid() && ok == !PastLimit(old(View()).brk, Shortage(old(blocks), size))
      ensures View() == if ok then Grow(old(View()), size) else old(View())
      ensures SamePayloads(old(mem[..]), mem[..], old(blocks))
    {
      ghost var h := View();
      assert Header(mem[..], blocks, |blocks| - 1);
      assert ResizeLast(blocks, Last(blocks).size) == blocks;
      ok := true;
      if mem[node] < size + PAGE_SIZE {
        ok := GrowBy(node, size + PAGE_SIZE - mem[node]);
        if ok {
          GrowValid(h, size);
        }
      } else {
        GrowNothing(h, size);
      }
    }

    /** Lines 133-174. */
    method Carve(node: nat, ghost k: nat, size: nat, pad: nat, ghost align: nat) returns (ret: nat)
      requires Valid() && k < |blocks| && blocks[k].addr == node
      requires align > 0 && align % 16 == 0 && 0 < size < INT32 && size % 16 == 0
      requires pad == Pad(node, align) && Fits(blocks[k], size, align)
      requires k == |blocks| - 1 ==> blocks[k].size > size
      modifies this`blocks, mem
      ensures Valid() && ret == PayloadAfterPad(node, align)
      ensures blocks == Splice(old(blocks), k, Pieces(old(blocks)[k], size, align))
      ensures SamePayloads(old(mem[..]), mem[..], old(blocks))
    {
      ghost var bs, m0 := blocks, mem[..];
      PadMultiple(node, align);
      if pad != 0 && pad != NODE_SIZE {
        var cur := CarvePadded(node, k, size, pad);
        ret := cur + NODE_SIZE;
      } else {
        CarvePlain(node, k, size);
        ret := node + NODE_SIZE;
      }
      PayloadsKept(m0, mem[..], bs, k);
      PaddedPiecesTile(bs[k], size, pad);
      PaddedPiecesAligned(bs[k], size, pad);
      SpliceValid(bs, k, Pieces(bs[k], size, align), kvmStart, kvmStart + kvmSize);
    }

    /** One step of the search (lines 115-175): take the node if it is free and large enough. */
    method TryNode(node: nat, ghost k: nat, size: nat, align: nat) returns (found: bool, ret: nat)
      requires Valid() && k < |blocks| && blocks[k].addr == node
      requires align > 0 && align % 16 == 0 && 0 < size < INT32 && size % 16 == 0
      requires k == |blocks| - 1 ==> blocks[k].size > size
      modifies this`blocks, mem
      ensures Valid() && found == Fits(old(blocks)[k], size, align)
      ensures found ==> ret == PayloadAfterPad(node, align)
                        && blocks == Splice(old(blocks), k, Pieces(old(blocks)[k], size, align))
                        && SamePayloads(old(mem[..]), mem[..], old(blocks))
      ensures !found ==> blocks == old(blocks) && mem[..] == old(mem[..])
    {
      assert Header(mem[..], blocks, k);
      found, ret := false, 0;
      if mem[node + 4] == KMALLOC_RES { return; }
      var pad := 0;
      if (node + 256) % align != 0 {
        pad := align - node % align;
      }
      if mem[node] < size + pad { return; }
      found := true;
      ret := Carve(node, k, size, pad, align);
    }

    /** The search loop (lines 90-176). */
    method SearchLoop(size: nat, align: nat) returns (ret: nat)
      requires Valid() && blocks != [] && 0 < size && size % 16 == 0 && align > 0 && align % 16 == 0
      requires size + align + PAGE_SIZE < INT32
      modifies this`kvmSize, this`kheapEnd, this`blocks, mem
      ensures Valid()
      ensures var r := Search(old(View()), size, align);
              View() == r.heap && ret == if r.ret.Some? then r.ret.value else 0
      ensures SamePayloads(old(mem[..]), mem[..], old(blocks))
      ensures forall i :: 0 <= i < |old(blocks)| - 1 && HasRoom(old(blocks)[i], size, align) ==>
                0 < ret < old(blocks)[i].End() && kvmSize == old(kvmSize)
    {
      ghost var h, bs := View(), blocks;
      SearchLowest(h, size, align);
      var node := kheapStart;
      ghost var k := 0;
      while node != 0
        invariant Valid() && View() == h && mem[..] == old(mem[..])
        invariant k < |bs| && node == bs[k].addr > 0
        invariant forall i :: 0 <= i < k ==> !Fits(bs[i], size, align)
        decreases |bs| - k
      {
        assert Header(mem[..], bs, k);
        assert k + 1 < |bs| ==> Header(mem[..], bs, k + 1);
        if mem[node + 8] == 0 {
          FirstFitIs(bs, size, align, k);
          ret := LastNode(node, size, align);
          return;
        }
        var found, p := TryNode(node, k, size, align);
        if found {
          FirstFitIs(bs, size, align, k);
          return p;
        }
        node, k := mem[node + 8], k + 1;
      }
      assert false;
    }

    /** The last step of the search: the heap is enlarged first, and there is no node after it. */
    method LastNode(node: nat, size: nat, align: nat) returns (ret: nat)
      requires Valid() && blocks != [] && 0 < size && size % 16 == 0 && align > 0 && align % 16 == 0
      requires size + PAGE_SIZE < INT32
      requires node == Last(blocks).addr && FirstFit(blocks, 0, size, align) == |blocks| - 1
      modifies this`kvmSize, this`kheapEnd, this`blocks, mem
      ensures Valid()
      ensures var r := Search(old(View()), size, align);
              View() == r.heap && ret == if r.ret.Some? then r.ret.value else 0
      ensures SamePayloads(old(mem[..]), mem[..], old(blocks))
    {
      ghost var h := View();
      var ok := Enlarge(node, size);
      if !ok { return 0; }
      ghost var k := |blocks| - 1;
      GrowValid(h, size);
      var found, p := TryNode(node, k, size, align);
      ret := if found then p else 0;
    }

    /** Lines 72-88: the first request makes the heap, one free node; a failure leaves -1 in kheap_start. */
    method MakeHeap(size: nat)
      requires Valid() && kheapStart == 0 && size % 16 == 0 && size + PAGE_SIZE < INT32
      modifies this, mem
      ensures Valid() && (kheapStart == FAILED <==> PastLimit(kvmStart, size + PAGE_SIZE))
      ensures View() == if kheapStart == FAILED then old(View()).(poisoned := true) else FirstHeap(old(View()), size)
    {
      ghost var h := View();
      kheapStart := Ksbrk(size + PAGE_SIZE);
      if kheapStart == FAILED { return; }
      kheapEnd := kvmStart + kvmSize;
      mem[kheapStart] := kheapEnd - kheapStart - NODE_SIZE;
      mem[kheapStart + 4] := KMALLOC_FREE;
      mem[kheapStart + 8] := 0;
      mem[kheapStart + 12] := 0;
      FirstHeapValid(h, size);
      blocks := FirstHeap(h, size).blocks;
      assert Header(mem[..], blocks, 0);
    }

    /** `do_kmalloc`.  Sizes stay below 2 GiB, so that the signed increment of `ksbrk` does not turn negative. */
    method DoKmalloc(bytes: nat, align: nat) returns (ret: nat)
      requires Valid() && kheapStart != FAILED && align > 0 && align % 16 == 0
      requires bytes + align + 2 * PAGE_SIZE < INT32
      modifies this, mem
      ensures Valid()
      ensures var r := Malloc(old(View()), bytes, align);
              View() == r.heap && ret == if r.ret.Some? then r.ret.value else 0
      ensures SamePayloads(old(mem[..]), mem[..], old(blocks))
      ensures forall i :: 0 <= i < |old(blocks)| - 1 && bytes > 0 && HasRoom(old(blocks)[i], RoundUp16(bytes), align) ==>
                0 < ret < old(blocks)[i].End() && kvmSize == old(kvmSize)
    {
      if bytes == 0 { return 0; }
      var size := RoundUp16(bytes);
      if kheapStart == 0 {
        MakeHeap(size);
        if kheapStart == FAILED { return 0; }
      }
      ret := SearchLoop(size, align);
    }

    /** `kmalloc_a` once paging is on. */
    method KmallocA(bytes: nat, align: nat) returns (ret: nat)
      requires Valid() && kheapStart != FAILED && align > 0
      requires bytes + align + 3 * PAGE_SIZE < INT32
      modifies this, mem
      ensures Valid()
      ensures var r := Malloc(old(View()), bytes, RoundUp16(align));
              View() == r.heap && ret == if r.ret.Some? then r.ret.value else 0
      ensures SamePayloads(old(mem[..]), mem[..], old(blocks))
      ensures forall i :: 0 <= i < |old(blocks)| - 1 && bytes > 0 && HasRoom(old(blocks)[i], RoundUp16(bytes), RoundUp16(align)) ==>
                0 < ret < old(blocks)[i].End() && kvmSize == old(kvmSize)
    {
      ret := DoKmalloc(bytes, RoundUp16(align));
    }

    /** `unify_fwd`: absorb the next node. */
    method UnifyFwd(ptr: nat, ghost k: nat)
      requires mem.Length == KSTACK_BEGIN && k + 1 < |blocks| && blocks[k].addr == ptr
      requires Headers(mem[..], blocks) && Chained(blocks) && blocks[k].free && blocks[k + 1].free
      modifies this`blocks, mem
      ensures blocks == Merge(old(blocks), k) && Headers(mem[..], blocks)
      ensures SamePayloads(old(mem[..]), mem[..], blocks)
    {
      ghost var bs, m0 := blocks, mem[..];
      assert Header(m0, bs, k) && Header(m0, bs, k + 1);
      assert k + 2 < |bs| ==> Header(m0, bs, k + 2);
      OrderedAll(bs);
      var next := mem[ptr + 8];
      mem[ptr] := mem[ptr] + mem[next] + NODE_SIZE;
      mem[ptr + 8] := mem[next + 8];
      if mem[ptr + 8] != 0 {
        mem[mem[ptr + 8] + 12] := ptr;
      }
      MergeHeaders(m0, mem[..], bs, k);
      MergeKeepsPayloads(m0, mem[..], bs, k);
      MergeReserved(bs, k);
      blocks := Merge(bs, k);
    }

    /** Line 197. */
    method Mark(node: nat, ghost k: nat)
      requires k < |blocks| && blocks[k].addr == node && Headers(mem[..], blocks) && Chained(blocks)
      modifies this`blocks, mem
      ensures blocks == MarkedFree(old(blocks), k) && Headers(mem[..], blocks)
      ensures SamePayloads(old(mem[..]), mem[..], blocks)
    {
      ghost var bs, m0 := blocks, mem[..];
      assert Header(m0, bs, k);
      mem[node + 4] := KMALLOC_FREE;
      MarkFree(m0, mem[..], bs, k);
      blocks := MarkedFree(bs, k);
    }

    /** Lines 200-201: merge with the right neighbour if it is free. */
    method CoalesceRight(ptr: nat, ghost k: nat)
      requires mem.Length == KSTACK_BEGIN && k < |blocks| && blocks[k].addr == ptr && blocks[k].free
      requires Headers(mem[..], blocks) && Chained(blocks)
      modifies this`blocks, mem
      ensures blocks == MergedRight(old(blocks), k)
      ensures Headers(mem[..], blocks) && SamePayloads(old(mem[..]), mem[..], blocks)
    {
      assert Header(mem[..], blocks, k);
      assert k + 1 < |blocks| ==> Header(mem[..], blocks, k + 1);
      if mem[ptr + 8] != 0 && mem[mem[ptr + 8] + 4] == KMALLOC_FREE {
        UnifyFwd(ptr, k);
      }
    }

    method MarkAndCoalesceRight(node: nat, ghost k: nat)
      requires mem.Length == KSTACK_BEGIN && k < |blocks| && blocks[k].addr == node
      requires Headers(mem[..], blocks) && Chained(blocks) && Chained(MarkedFree(blocks, k))
      modifies this`blocks, mem
      ensures blocks == MergedRight(MarkedFree(old(blocks), k), k) && Headers(mem[..], blocks)
      ensures SamePayloads(old(mem[..]), mem[..], blocks)
    {
      ghost var m0 := mem[..];
      Mark(node, k);
      ghost var b1, m1 := blocks, mem[..];
      CoalesceRight(node, k);
      RightPayloads(m0, m1, mem[..], b1, k);
    }

    /** Lines 202-206: merge with the left neighbour if it is free. */
    method CoalesceLeft(node: nat, ghost k: nat) returns (ptr: nat)
      requires mem.Length == KSTACK_BEGIN && k < |blocks| && blocks[k].addr == node && blocks[k].free
      requires Headers(mem[..], blocks) && Chained(blocks)
      modifies this`blocks, mem
      ensures blocks == MergedLeft(old(blocks), k)
      ensures ptr == if k > 0 && old(blocks)[k - 1].free then old(blocks)[k - 1].addr else node
      ensures Headers(mem[..], blocks) && SamePayloads(old(mem[..]), mem[..], blocks)
    {
      assert Header(mem[..], blocks, k);
      assert k > 0 ==> Header(mem[..], blocks, k - 1);
      ptr := node;
      if mem[ptr + 12] != 0 && mem[mem[ptr + 12] + 4] == KMALLOC_FREE {
        ptr := mem[ptr + 12];
        UnifyFwd(ptr, k - 1);
      }
    }

    /** Lines 193-206: mark the node free and merge it with its free neighbours. */
    method Release(node: nat, ghost k: nat) returns (ptr: nat)
      requires Valid() && k < |blocks| && blocks[k].addr == node && !blocks[k].free
      modifies this`blocks, mem
      ensures Valid() && View() == old(View()).(blocks := HeapSpec.Release(old(blocks), k))
      ensures ReleasedAt(old(blocks), k) < |blocks| && ptr == blocks[ReleasedAt(old(blocks), k)].addr
      ensures SamePayloads(old(mem[..]), mem[..], blocks)
    {
      ghost var h := View();
      ptr := ReleaseNode(node, k);
      assert View() == h.(blocks := blocks);
    }

    method ReleaseNode(node: nat, ghost k: nat) returns (ptr: nat)
      requires mem.Length == KSTACK_BEGIN && k < |blocks| && blocks[k].addr == node && !blocks[k].free
      requires Headers(mem[..], blocks) && ValidBlocks(blocks, kvmStart, kheapEnd)
      modifies this`blocks, mem
      ensures blocks == HeapSpec.Release(old(blocks), k) && ValidBlocks(blocks, kvmStart, kheapEnd)
      ensures ReleasedAt(old(blocks), k) < |blocks| && ptr == blocks[ReleasedAt(old(blocks), k)].addr
      ensures Headers(mem[..], blocks) && SamePayloads(old(mem[..]), mem[..], blocks)
    {
      ghost var bs, m0 := blocks, mem[..];
      ReleaseFacts(bs, k, kvmStart, kheapEnd);
      MarkAndCoalesceRight(node, k);
      ghost var b2, m2 := blocks, mem[..];
      ptr := CoalesceLeft(node, k);
      LeftPayloads(m0, m2, mem[..], b2, k);
    }

    /** Lines 211-213: give the whole pages of the last node back. */
    method DropPages(ptr: nat)
      requires mem.Length == KSTACK_BEGIN && kvmStart + kvmSize <= KSTACK_BEGIN
      requires (kvmStart + kvmSize) % PAGE_SIZE == 0
      requires Headers(mem[..], blocks) && Tiles(blocks, kvmStart, kvmStart + kvmSize)
      requires ptr == Last(blocks).addr && Last(blocks).free && Last(blocks).size > 0
      modifies this`kvmSize, this`kheapEnd, this`blocks, mem
      ensures var n := Last(old(blocks)).size / PAGE_SIZE * PAGE_SIZE;
              && n <= Last(old(blocks)).size && kvmSize == old(kvmSize) - n && kheapEnd == kvmStart + kvmSize
              && blocks == ResizeLast(old(blocks), Last(old(blocks)).size - n)
      ensures Headers(mem[..], blocks) && SamePayloads(old(mem[..]), mem[..], old(blocks))
    {
      ghost var bs, m0, hi := blocks, mem[..], kvmStart + kvmSize;
      assert Header(m0, bs, |bs| - 1);
      NodeEnd(bs, |bs| - 1, kvmStart, hi);
      var prevEnd := Ksbrk(-mem[ptr]);
      kheapEnd := kvmStart + kvmSize;
      assert mem[ptr] == m0[ptr];
      mem[ptr] := mem[ptr] - (prevEnd - kheapEnd);
      ResizeHeaders(m0, mem[..], bs, mem[ptr], kvmStart, hi);
      blocks := ResizeLast(bs, mem[ptr]);
    }

    method GiveBack(ptr: nat)
      requires Valid() && blocks != [] && ptr == Last(blocks).addr && Last(blocks).size > 2 * PAGE_SIZE
      modifies this`kvmSize, this`kheapEnd, this`blocks, mem
      ensures Valid() && View() == Shrink(old(View()))
      ensures SamePayloads(old(mem[..]), mem[..], old(blocks))
    {
      ghost var h := View();
      ShrinkValid(h);
      DropPages(ptr);
      assert View() == Shrink(h);
    }

    /** Lines 208-214. */
    method Trim(ptr: nat, ghost j: nat)
      requires Valid() && j < |blocks| && ptr == blocks[j].addr
      modifies this`kvmSize, this`kheapEnd, this`blocks, mem
      ensures Valid() && View() == Trimmed(old(View()), j)
      ensures SamePayloads(old(mem[..]), mem[..], blocks)
    {
      ghost var bs := blocks;
      assert Header(mem[..], bs, j);
      assert j + 1 < |bs| ==> Header(mem[..], bs, j + 1);
      if mem[ptr + 8] == 0 && mem[ptr] > 2 * PAGE_SIZE {
        GiveBack(ptr);
        ResizeReserved(bs, Last(blocks).size);
      }
    }

    /** `do_kfree`.  The pointer is the payload of a reserved block. */
    method DoKfree(addr: nat)
      requires Valid() && Legal(View(), Kfree(addr))
      modifies this`kvmSize, this`kheapEnd, this`blocks, mem
      ensures Valid() && View() == Do(old(View()), Kfree(addr))
      ensures SamePayloads(old(mem[..]), mem[..], blocks)
    {
      ghost var h, m0 := View(), mem[..];
      ghost var k := Find(blocks, addr);
      var ptr := Release(addr - NODE_SIZE, k);
      ghost var bs, m1 := blocks, mem[..];
      Trim(ptr, ReleasedAt(h.blocks, k));
      TrimPayloads(m0, m1, mem[..], h.(blocks := bs), ReleasedAt(h.blocks, k));
    }
  }
}
