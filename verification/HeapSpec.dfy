/** The kernel heap of kernel/src/mm/kmalloc.c at the level of its blocks.

    A heap is the list of blocks met by following `next` from `kheap_start`.  The functions below say what one
    call of `do_kmalloc` or `do_kfree` does to that list; `KernelHeap` proves that the code, which works on
    headers stored in memory, does exactly this.  The lemmas are about every list and every run of calls. */
module HeapSpec {
  import opened Arith
  import opened Layout

  const NODE_SIZE: int := 16

  /** A block: the address of its header, the size of its payload and its status. */
  datatype Block = Block(addr: nat, size: nat, free: bool) {
    function End(): nat { addr + NODE_SIZE + size }
    function Payload(): nat { addr + NODE_SIZE }
  }

  /** `start` and `brk` are the bounds kept by kvm.c; `blocks` is empty until the first request.
      `poisoned` records that the very first request failed and left -1 in `kheap_start`. */
  datatype Heap = Heap(start: nat, brk: nat, blocks: seq<Block>, poisoned: bool)

  function PageUp(n: nat): nat { (n + 4095) / 4096 * 4096 }

  /** `round_up` (kmalloc.c) for the only alignment it is used with in this model. */
  function RoundUp16(n: nat): (r: nat)
    ensures n <= r < n + 16 && r % 16 == 0
  {
    if n % 16 != 0 then n + 16 - (n + 16) % 16 else n
  }

  // ---------------------------------------------------------------- the invariant

  ghost predicate Chained(bs: seq<Block>) {
    forall i :: 0 <= i < |bs| - 1 ==> bs[i].End() == bs[i + 1].addr
  }

  /** The blocks tile [lo, hi) exactly. */
  ghost predicate Tiles(bs: seq<Block>, lo: nat, hi: nat) {
    && |bs| > 0
    && bs[0].addr == lo
    && bs[|bs| - 1].End() == hi
    && Chained(bs)
  }

  ghost predicate Aligned(bs: seq<Block>) {
    forall i :: 0 <= i < |bs| ==> bs[i].addr % 16 == 0 && bs[i].size % 16 == 0
  }

  /** Two free blocks are never neighbours. */
  ghost predicate Coalesced(bs: seq<Block>) {
    forall i :: 0 <= i < |bs| - 1 ==> !(bs[i].free && bs[i + 1].free)
  }

  ghost predicate ValidBlocks(bs: seq<Block>, lo: nat, hi: nat) {
    && Tiles(bs, lo, hi)
    && Aligned(bs)
    && Coalesced(bs)
    && bs[|bs| - 1].free
  }

  ghost predicate Valid(h: Heap) {
    && 0 < h.start <= h.brk <= KSTACK_BEGIN
    && h.start % PAGE_SIZE == 0 && h.brk % PAGE_SIZE == 0
    && (h.blocks == [] ==> h.brk == h.start)
    && (h.blocks != [] ==> ValidBlocks(h.blocks, h.start, h.brk) && !h.poisoned)
  }

  // ---------------------------------------------------------------- do_kmalloc

  /** The front padding computed for a node.  The test adds NODE_T_SIZE in units of the header struct, that is
      256 bytes; the amount is measured from the header itself. */
  function Pad(addr: nat, align: nat): nat
    requires align > 0
  {
    if (addr + 256) % align != 0 then align - addr % align else 0
  }

  predicate Fits(b: Block, size: nat, align: nat)
    requires align > 0
  {
    b.free && b.size >= size + Pad(b.addr, align)
  }

  /** First fit among blocks k.. that are not the last one; |bs| - 1 when there is none. */
  function FirstFit(bs: seq<Block>, k: nat, size: nat, align: nat): (r: nat)
    requires k < |bs| && align > 0
    ensures k <= r < |bs|
    ensures r < |bs| - 1 ==> Fits(bs[r], size, align)
    ensures forall i :: k <= i < r ==> !Fits(bs[i], size, align)
    decreases |bs| - k
  {
    if k == |bs| - 1 || Fits(bs[k], size, align) then k else FirstFit(bs, k + 1, size, align)
  }

  /** What replaces the chosen block: an optional front pad, the reserved block, an optional remainder. */
  function PaddedPieces(b: Block, size: nat, p: nat): seq<Block>
    requires p % 16 == 0 && b.size % 16 == 0 && size % 16 == 0 && b.size >= size + p
  {
    if p != 0 && p != NODE_SIZE then
      [Block(b.addr, p - 2 * NODE_SIZE, true),
       Block(b.addr + p - NODE_SIZE, size, false),
       Block(b.addr + p + size, b.size - p - size, true)]
    else if b.size != size then
      [Block(b.addr, size, false), Block(b.addr + NODE_SIZE + size, b.size - size - NODE_SIZE, true)]
    else
      [Block(b.addr, size, false)]
  }

  function Pieces(b: Block, size: nat, align: nat): seq<Block>
    requires align > 0 && align % 16 == 0 && b.addr % 16 == 0 && b.size % 16 == 0 && size % 16 == 0
    requires Fits(b, size, align)
  {
    PadMultiple(b.addr, align);
    PaddedPieces(b, size, Pad(b.addr, align))
  }

  function Splice(bs: seq<Block>, k: nat, pieces: seq<Block>): seq<Block>
    requires k < |bs|
  {
    bs[..k] + pieces + bs[k + 1..]
  }

  /** The address handed out: just past the header of the reserved piece. */
  function PayloadAfterPad(addr: nat, align: nat): nat
    requires align > 0
  {
    var p := Pad(addr, align);
    if p != 0 && p != NODE_SIZE then addr + p else addr + NODE_SIZE
  }

  lemma PadMultiple(addr: nat, align: nat)
    requires align > 0 && align % 16 == 0 && addr % 16 == 0
    ensures Pad(addr, align) % 16 == 0
    ensures Pad(addr, align) <= align
  {
    ModMultiple(addr, align);
  }

  lemma ModMultiple(addr: nat, align: nat)
    requires align > 0 && align % 16 == 0 && addr % 16 == 0
    ensures (addr % align) % 16 == 0
  {
    var q, k := addr / align, align / 16;
    assert addr == q * align + addr % align;
    assert align == 16 * k;
    assert q * align == 16 * (q * k) by {
      assert q * (16 * k) == 16 * (q * k);
    }
  }

  // ---------------------------------------------------------------- growing and shrinking the break

  /** Would raising the break by n bytes pass the kernel stack?  (`ksbrk` refuses before moving anything.) */
  predicate PastLimit(brk: nat, n: nat) { brk + n > KSTACK_BEGIN }

  function Last(bs: seq<Block>): Block
    requires bs != []
  {
    bs[|bs| - 1]
  }

  function ResizeLast(bs: seq<Block>, size: nat): seq<Block>
    requires bs != []
  {
    bs[|bs| - 1 := Last(bs).(size := size)]
  }

  /** The last block must hold the request and one more page; bytes by which the break has to rise for that. */
  function Shortage(bs: seq<Block>, size: nat): nat
    requires bs != []
  {
    if Last(bs).size < size + PAGE_SIZE then size + PAGE_SIZE - Last(bs).size else 0
  }

  function Grow(h: Heap, size: nat): Heap
    requires h.blocks != []
  {
    var n := PageUp(Shortage(h.blocks, size));
    h.(brk := h.brk + n, blocks := ResizeLast(h.blocks, Last(h.blocks).size + n))
  }

  /** The heap made by the first request, before its search. */
  function FirstHeap(h: Heap, size: nat): Heap
    requires !PastLimit(h.start, size + PAGE_SIZE)
  {
    var brk := h.start + PageUp(size + PAGE_SIZE);
    h.(brk := brk, blocks := [Block(h.start, brk - h.start - NODE_SIZE, true)])
  }

  datatype Allocated = Allocated(heap: Heap, ret: Option<nat>)

  /** Block k gives the request its place. */
  function Carved(h: Heap, k: nat, size: nat, align: nat): Allocated
    requires k < |h.blocks| && Aligned(h.blocks) && size % 16 == 0 && align > 0 && align % 16 == 0 && Fits(h.blocks[k], size, align)
  {
    Allocated(h.(blocks := Splice(h.blocks, k, Pieces(h.blocks[k], size, align))), Some(PayloadAfterPad(h.blocks[k].addr, align)))
  }

  /** The search of `do_kmalloc` and what it does to the block it stops at; `size` is already rounded. */
  function Search(h: Heap, size: nat, align: nat): Allocated
    requires Valid(h) && h.blocks != []
    requires size % 16 == 0 && align > 0 && align % 16 == 0
  {
    var k := FirstFit(h.blocks, 0, size, align);
    if k < |h.blocks| - 1 then Carved(h, k, size, align)
    else if PastLimit(h.brk, Shortage(h.blocks, size)) then Allocated(h, None)
    else
      GrowValid(h, size);
      var g := Grow(h, size);
      if Fits(g.blocks[k], size, align) then Carved(g, k, size, align) else Allocated(g, None)
  }

  /** `do_kmalloc`. */
  function Malloc(h: Heap, bytes: nat, align: nat): Allocated
    requires Valid(h) && !h.poisoned && align > 0 && align % 16 == 0
  {
    var size := RoundUp16(bytes);
    if bytes == 0 then Allocated(h, None)
    else if h.blocks != [] then Search(h, size, align)
    else if PastLimit(h.start, size + PAGE_SIZE) then Allocated(h.(poisoned := true), None)
    else
      FirstHeapValid(h, size);
      Search(FirstHeap(h, size), size, align)
  }

  // ---------------------------------------------------------------- do_kfree

  function Merge(bs: seq<Block>, k: nat): seq<Block>
    requires k + 1 < |bs|
  {
    bs[..k] + [bs[k].(size := bs[k].size + bs[k + 1].size + NODE_SIZE)] + bs[k + 2..]
  }

  function MarkedFree(bs: seq<Block>, k: nat): seq<Block>
    requires k < |bs|
  {
    bs[k := bs[k].(free := true)]
  }

  function MergedRight(bs: seq<Block>, k: nat): (r: seq<Block>)
    requires k < |bs|
    ensures k < |r| && r[k].addr == bs[k].addr && r[k].free == bs[k].free
    ensures forall i :: 0 <= i < k ==> r[i] == bs[i]
  {
    if k + 1 < |bs| && bs[k + 1].free then Merge(bs, k) else bs
  }

  function MergedLeft(bs: seq<Block>, k: nat): seq<Block>
    requires k < |bs|
  {
    if k > 0 && bs[k - 1].free then Merge(bs, k - 1) else bs
  }

  /** Mark block k free and merge it with a free right neighbour, then with a free left one. */
  function Release(bs: seq<Block>, k: nat): seq<Block>
    requires k < |bs|
  {
    MergedLeft(MergedRight(MarkedFree(bs, k), k), k)
  }

  /** Where the block that holds the freed bytes ends up. */
  function ReleasedAt(bs: seq<Block>, k: nat): nat
    requires k < |bs|
  {
    if k > 0 && bs[k - 1].free then k - 1 else k
  }

  /** Give whole pages back when the last block holds more than two. */
  function Shrink(h: Heap): Heap
    requires Valid(h) && h.blocks != []
  {
    var n := Last(h.blocks).size / PAGE_SIZE * PAGE_SIZE;
    h.(brk := h.brk - n, blocks := ResizeLast(h.blocks, Last(h.blocks).size - n))
  }

  function Trimmed(h: Heap, j: nat): Heap
    requires Valid(h) && h.blocks != []
  {
    if j == |h.blocks| - 1 && Last(h.blocks).size > 2 * PAGE_SIZE then Shrink(h) else h
  }

  /** Index of the block whose payload starts at ptr; |bs| when there is none. */
  function Find(bs: seq<Block>, ptr: nat): (k: nat)
    ensures k <= |bs|
    ensures k < |bs| ==> bs[k].Payload() == ptr
    ensures k == |bs| ==> forall i :: 0 <= i < |bs| ==> bs[i].Payload() != ptr
  {
    if bs == [] then 0 else if bs[0].Payload() == ptr then 0 else 1 + Find(bs[1..], ptr)
  }

  /** `do_kfree` on block k. */
  function FreeAt(h: Heap, k: nat): Heap
    requires Valid(h) && k < |h.blocks| && !h.blocks[k].free
  {
    ReleaseValid(h.blocks, k, h.start, h.brk);
    Trimmed(h.(blocks := Release(h.blocks, k)), ReleasedAt(h.blocks, k))
  }

  // ---------------------------------------------------------------- preservation of the invariant

  lemma PageUpFacts(n: nat)
    ensures n <= PageUp(n) < n + 4096 && PageUp(n) % 4096 == 0 && PageUp(n) % 16 == 0
  {
    var q := (n + 4095) / 4096;
    DivModUnique(PageUp(n), 4096, q, 0);
    DivModUnique(PageUp(n), 16, 256 * q, 0);
  }

  lemma Multiple16(a: int, b: int)
    requires a % 16 == 0 && b % 16 == 0
    ensures (a + b) % 16 == 0 && (a - b) % 16 == 0
  {
    DivModUnique(a + b, 16, a / 16 + b / 16, 0);
    DivModUnique(a - b, 16, a / 16 - b / 16, 0);
  }

  lemma Multiple4096(a: int)
    requires a % 4096 == 0
    ensures a % 16 == 0
  {
    DivModUnique(a, 16, 256 * (a / 4096), 0);
  }

  /** The kernel stack starts on a page boundary, so whole pages fit below it as soon as the bytes do. */
  lemma PageUpRoom(brk: nat, n: nat)
    requires brk % PAGE_SIZE == 0 && !PastLimit(brk, n)
    ensures brk + PageUp(n) <= KSTACK_BEGIN && (brk + PageUp(n)) % PAGE_SIZE == 0
  {
    var u, q := brk / 4096, (n + 4095) / 4096;
    assert brk == 4096 * u && PageUp(n) == 4096 * q && KSTACK_BEGIN == 4096 * 64512;
    DivModUnique(brk + PageUp(n), 4096, u + q, 0);
  }

  /** A new size for the last block, with the break following it. */
  lemma ResizeValid(bs: seq<Block>, lo: nat, hi: nat, size: nat)
    requires ValidBlocks(bs, lo, hi) && size % 16 == 0
    ensures ValidBlocks(ResizeLast(bs, size), lo, Last(bs).addr + NODE_SIZE + size)
    ensures lo <= Last(bs).addr
  {
    if |bs| > 1 {
      Ordered(bs, 0, |bs| - 1);
    }
  }

  lemma GrowValid(h: Heap, size: nat)
    requires Valid(h) && h.blocks != [] && size % 16 == 0
    requires !PastLimit(h.brk, Shortage(h.blocks, size))
    ensures Valid(Grow(h, size)) && Last(Grow(h, size).blocks).size >= size + PAGE_SIZE
    ensures |Grow(h, size).blocks| == |h.blocks|
  {
    var n := Shortage(h.blocks, size);
    PageUpFacts(n);
    PageUpRoom(h.brk, n);
    assert Last(h.blocks).size % 16 == 0;
    Multiple16(Last(h.blocks).size, PageUp(n));
    ResizeValid(h.blocks, h.start, h.brk, Last(h.blocks).size + PageUp(n));
  }

  lemma FirstHeapValid(h: Heap, size: nat)
    requires Valid(h) && h.blocks == [] && !h.poisoned && size % 16 == 0
    requires !PastLimit(h.start, size + PAGE_SIZE)
    ensures Valid(FirstHeap(h, size))
  {
    PageUpFacts(size + PAGE_SIZE);
    PageUpRoom(h.start, size + PAGE_SIZE);
    var n := PageUp(size + PAGE_SIZE);
    Multiple4096(h.start);
    Multiple16(n, 16);
    assert FirstHeap(h, size).blocks == [Block(h.start, n - NODE_SIZE, true)];
  }

  /** Later blocks lie above earlier ones. */
  lemma {:induction false} Ordered(bs: seq<Block>, i: nat, j: nat)
    requires Chained(bs) && i < j < |bs|
    ensures bs[i].End() <= bs[j].addr
  {
    if i + 1 < j {
      Ordered(bs, i, j - 1);
      assert bs[j - 1].End() == bs[j].addr;
    }
  }

  lemma PageRemainder(size: nat, brk: nat)
    requires size % 16 == 0 && brk % PAGE_SIZE == 0
    ensures (size - size / PAGE_SIZE * PAGE_SIZE) % 16 == 0 && size / PAGE_SIZE * PAGE_SIZE <= size
    ensures (brk - size / PAGE_SIZE * PAGE_SIZE) % PAGE_SIZE == 0
  {
    var q := size / 4096;
    DivModUnique(size - q * 4096, 16, size / 16 - 256 * q, 0);
    DivModUnique(brk - q * 4096, 4096, brk / 4096 - q, 0);
  }

  lemma ShrinkValid(h: Heap)
    requires Valid(h) && h.blocks != []
    ensures Valid(Shrink(h))
  {
    var size := Last(h.blocks).size;
    PageRemainder(size, h.brk);
    ResizeValid(h.blocks, h.start, h.brk, size - size / PAGE_SIZE * PAGE_SIZE);
  }

  lemma PaddedPiecesTile(b: Block, size: nat, p: nat)
    requires p % 16 == 0 && b.size % 16 == 0 && size % 16 == 0 && b.size >= size + p
    ensures var ps := PaddedPieces(b, size, p);
            && Tiles(ps, b.addr, b.End()) && Coalesced(ps)
            && (Last(ps).free <==> |ps| > 1)
  {
  }

  lemma PaddedPiecesAligned(b: Block, size: nat, p: nat)
    requires p % 16 == 0 && b.addr % 16 == 0 && b.size % 16 == 0 && size % 16 == 0 && b.size >= size + p
    ensures Aligned(PaddedPieces(b, size, p))
  {
    var ps := PaddedPieces(b, size, p);
    if p != 0 && p != NODE_SIZE {
      assert (p - 2 * NODE_SIZE) % 16 == 0 && (b.addr + p - NODE_SIZE) % 16 == 0;
      assert (b.addr + p + size) % 16 == 0 && (b.size - p - size) % 16 == 0;
    } else if b.size != size {
      assert (b.addr + NODE_SIZE + size) % 16 == 0 && (b.size - size - NODE_SIZE) % 16 == 0;
    }
  }

  lemma SpliceValid(bs: seq<Block>, k: nat, pieces: seq<Block>, lo: nat, hi: nat)
    requires k < |bs| && ValidBlocks(bs, lo, hi) && bs[k].free
    requires Tiles(pieces, bs[k].addr, bs[k].End()) && Aligned(pieces) && Coalesced(pieces)
    requires k == |bs| - 1 ==> Last(pieces).free
    ensures ValidBlocks(Splice(bs, k, pieces), lo, hi)
  {
    var r, n := Splice(bs, k, pieces), |pieces|;
    assert forall i :: 0 <= i < k ==> r[i] == bs[i];
    assert forall i :: k <= i < k + n ==> r[i] == pieces[i - k];
    assert forall i :: k + n <= i < |r| ==> r[i] == bs[i - n + 1];
    forall i | 0 <= i < |r| - 1
      ensures r[i].End() == r[i + 1].addr && !(r[i].free && r[i + 1].free)
    {
      if i == k - 1 {
        assert bs[i].End() == bs[i + 1].addr;
      } else if k <= i < k + n - 1 {
        assert pieces[i - k].End() == pieces[i - k + 1].addr;
      } else if i == k + n - 1 {
        assert bs[k].End() == bs[k + 1].addr;
      } else if i > k + n - 1 {
        assert bs[i - n + 1].End() == bs[i - n + 2].addr;
      }
    }
  }

  lemma MergeTiles(bs: seq<Block>, k: nat, lo: nat, hi: nat)
    requires k + 1 < |bs| && Tiles(bs, lo, hi) && Aligned(bs)
    ensures Tiles(Merge(bs, k), lo, hi) && Aligned(Merge(bs, k))
  {
    var r := Merge(bs, k);
    assert forall i :: 0 <= i < k ==> r[i] == bs[i];
    assert forall i :: k < i < |r| ==> r[i] == bs[i + 1];
    assert bs[k].End() == bs[k + 1].addr;
    forall i | 0 <= i < |r| - 1
      ensures r[i].End() == r[i + 1].addr
    {
      if i < k {
        assert bs[i].End() == bs[i + 1].addr;
      } else {
        assert bs[i + 1].End() == bs[i + 2].addr;
      }
    }
  }

  lemma MergeAt(bs: seq<Block>, k: nat)
    requires k + 1 < |bs|
    ensures |Merge(bs, k)| == |bs| - 1
    ensures forall i :: 0 <= i < k ==> Merge(bs, k)[i] == bs[i]
    ensures forall i :: k < i < |bs| - 1 ==> Merge(bs, k)[i] == bs[i + 1]
    ensures Merge(bs, k)[k] == bs[k].(size := bs[k].size + bs[k + 1].size + NODE_SIZE)
  {
  }

  /** First half of `Release`: block k is free and the only free pair left is (k - 1, k). */
  lemma ReleaseRight(bs: seq<Block>, k: nat, lo: nat, hi: nat)
    requires k < |bs| && ValidBlocks(bs, lo, hi) && !bs[k].free
    ensures var b2 := MergedRight(MarkedFree(bs, k), k);
            && Tiles(b2, lo, hi) && Aligned(b2) && k < |b2| && b2[k].free && Last(b2).free
            && (forall i :: 0 <= i < |b2| - 1 && i != k - 1 ==> !(b2[i].free && b2[i + 1].free))
            && (forall i :: 0 <= i < k ==> b2[i] == bs[i])
  {
    var b1 := MarkedFree(bs, k);
    assert Tiles(b1, lo, hi) && Aligned(b1);
    if k + 1 < |b1| && b1[k + 1].free {
      MergeTiles(b1, k, lo, hi);
      MergeAt(b1, k);
    }
  }

  /** Second half: merging to the left removes the pair (k - 1, k). */
  lemma ReleaseLeft(b2: seq<Block>, k: nat, lo: nat, hi: nat)
    requires Tiles(b2, lo, hi) && Aligned(b2) && 0 < k < |b2| && b2[k].free && Last(b2).free
    requires forall i :: 0 <= i < |b2| - 1 && i != k - 1 ==> !(b2[i].free && b2[i + 1].free)
    requires b2[k - 1].free
    ensures ValidBlocks(Merge(b2, k - 1), lo, hi)
  {
    MergeTiles(b2, k - 1, lo, hi);
    MergeAt(b2, k - 1);
  }

  lemma ReleaseValid(bs: seq<Block>, k: nat, lo: nat, hi: nat)
    requires k < |bs| && ValidBlocks(bs, lo, hi) && !bs[k].free
    ensures ValidBlocks(Release(bs, k), lo, hi)
  {
    ReleaseRight(bs, k, lo, hi);
    var b2 := MergedRight(MarkedFree(bs, k), k);
    if k > 0 && b2[k - 1].free {
      ReleaseLeft(b2, k, lo, hi);
    }
  }

  lemma SearchValid(h: Heap, size: nat, align: nat)
    requires Valid(h) && h.blocks != []
    requires size % 16 == 0 && align > 0 && align % 16 == 0
    ensures Valid(Search(h, size, align).heap)
  {
    var k := FirstFit(h.blocks, 0, size, align);
    if k < |h.blocks| - 1 {
      PadMultiple(h.blocks[k].addr, align);
      PaddedPiecesTile(h.blocks[k], size, Pad(h.blocks[k].addr, align));
      PaddedPiecesAligned(h.blocks[k], size, Pad(h.blocks[k].addr, align));
      SpliceValid(h.blocks, k, Pieces(h.blocks[k], size, align), h.start, h.brk);
    } else if !PastLimit(h.brk, Shortage(h.blocks, size)) {
      GrowValid(h, size);
      var g := Grow(h, size);
      if Fits(Last(g.blocks), size, align) {
        PadMultiple(g.blocks[k].addr, align);
        PaddedPiecesTile(g.blocks[k], size, Pad(g.blocks[k].addr, align));
        PaddedPiecesAligned(g.blocks[k], size, Pad(g.blocks[k].addr, align));
        SpliceValid(g.blocks, k, Pieces(g.blocks[k], size, align), g.start, g.brk);
      }
    }
  }

  lemma MallocValid(h: Heap, bytes: nat, align: nat)
    requires Valid(h) && !h.poisoned && align > 0 && align % 16 == 0
    ensures Valid(Malloc(h, bytes, align).heap)
  {
    var size := RoundUp16(bytes);
    if bytes != 0 {
      if h.blocks != [] {
        SearchValid(h, size, align);
      } else if !PastLimit(h.start, size + PAGE_SIZE) {
        FirstHeapValid(h, size);
        SearchValid(FirstHeap(h, size), size, align);
      }
    }
  }

  lemma FreeAtValid(h: Heap, k: nat)
    requires Valid(h) && k < |h.blocks| && !h.blocks[k].free
    ensures Valid(FreeAt(h, k))
  {
    ReleaseValid(h.blocks, k, h.start, h.brk);
    ShrinkValid(h.(blocks := Release(h.blocks, k)));
  }
}
