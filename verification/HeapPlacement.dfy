/** Which block a request gets and where the break ends up, said of the blocks before the call. */
module HeapPlacement {
  import opened Arith
  import opened Layout
  import opened HeapSpec
  import opened HeapTheorems

  /** Free and large enough for `size` bytes behind the padding that an alignment costs there: none when the address 256
      bytes on is aligned, else the bytes up to the next boundary. */
  predicate HasRoom(b: Block, size: nat, align: nat)
    requires align > 0
  {
    b.free && b.size >= size + if (b.addr + 256) % align != 0 then align - b.addr % align else 0
  }

  /** The address that block b gives to a request: past its header, or past a padding that has room for two. */
  function PlaceIn(b: Block, align: nat): nat
    requires align > 0
  {
    var padding := if (b.addr + 256) % align != 0 then align - b.addr % align else 0;
    b.addr + if padding == 0 || padding == 16 then 16 else padding
  }

  /** The heap a request of `size` bytes searches: the first one makes one free block of the whole pages it takes to hold
      the request and one page more. */
  ghost predicate SearchedBy(h: Heap, size: nat, bs: seq<Block>, brk: nat) {
    if h.blocks != [] then bs == h.blocks && brk == h.brk
    else
      && brk % 4096 == 0 && h.start + size + 4096 <= brk < h.start + size + 2 * 4096
      && bs == [Block(h.start, brk - h.start - 16, true)]
  }

  /** What is promised of a request of `size` bytes that searches the blocks bs below brk and stops at block k: none before k
      has room; a block before the last is taken as it is and the break stays; the last one first gets the fewest whole
      pages that let it hold the request and one page more, unless that would pass the kernel stack. */
  ghost predicate PlacedAt(bs: seq<Block>, brk: nat, k: nat, size: nat, align: nat, r: Allocated)
    requires align > 0
  {
    && k < |bs|
    && (forall i :: 0 <= i < k ==> !HasRoom(bs[i], size, align))
    && (k < |bs| - 1 ==> HasRoom(bs[k], size, align) && r.ret == Some(PlaceIn(bs[k], align)) && r.heap.brk == brk)
    && (k == |bs| - 1 ==>
          var need := size + 4096 - bs[k].size;
          if need > 0 && brk + need > 0x0FC0_0000 then r.ret == None && r.heap.brk == brk
          else
            && r.heap.brk >= brk && (r.heap.brk - brk) % 4096 == 0
            && r.heap.brk - brk >= need && (r.heap.brk - brk < need + 4096 || r.heap.brk == brk) && (need <= 0 ==> r.heap.brk == brk)
            && r.ret == if HasRoom(bs[k].(size := bs[k].size + (r.heap.brk - brk)), size, align) then Some(PlaceIn(bs[k], align)) else None)
  }

  lemma SearchPlaces(h: Heap, size: nat, align: nat) returns (k: nat)
    requires Valid(h) && h.blocks != [] && size % 16 == 0 && align > 0 && align % 16 == 0
    ensures PlacedAt(h.blocks, h.brk, k, size, align, Search(h, size, align))
  {
    k := FirstFit(h.blocks, 0, size, align);
    if k == |h.blocks| - 1 && !PastLimit(h.brk, Shortage(h.blocks, size)) {
      GrowValid(h, size);
      PageUpFacts(Shortage(h.blocks, size));
    }
  }

  /** First fit, of every request: it stops at some block of the heap it searches, and `PlacedAt` says which and what comes of it. */
  lemma MallocPlaces(h: Heap, bytes: nat, size: nat, align: nat) returns (bs: seq<Block>, brk: nat, k: nat)
    requires Valid(h) && !h.poisoned && align > 0 && align % 16 == 0
    requires bytes > 0 && bytes <= size < bytes + 16 && size % 16 == 0
    requires h.blocks != [] || h.start + size + 4096 <= 0x0FC0_0000
    ensures SearchedBy(h, size, bs, brk) && PlacedAt(bs, brk, k, size, align, Malloc(h, bytes, align))
  {
    assert RoundUp16(bytes) == size;
    if h.blocks != [] {
      bs, brk := h.blocks, h.brk;
      k := SearchPlaces(h, size, align);
    } else {
      FirstHeapValid(h, size);
      PageUpFacts(size + PAGE_SIZE);
      var f := FirstHeap(h, size);
      bs, brk := f.blocks, f.brk;
      k := SearchPlaces(f, size, align);
    }
  }

  /** Room anywhere is used: a request that some block of the list can hold succeeds, at an address below the end of every
      block that could hold it; and the break stays when one before the last could. */
  lemma MallocLowest(h: Heap, bytes: nat, size: nat, align: nat, i: nat)
    requires Valid(h) && !h.poisoned && align > 0 && align % 16 == 0
    requires bytes > 0 && bytes <= size < bytes + 16 && size % 16 == 0
    requires i < |h.blocks| && h.blocks[i].free
    requires h.blocks[i].size >= size + if (h.blocks[i].addr + 256) % align != 0 then align - h.blocks[i].addr % align else 0
    requires i == |h.blocks| - 1 ==> h.blocks[i].size >= size + 4096
    ensures Malloc(h, bytes, align).ret.Some? && Malloc(h, bytes, align).ret.value < h.blocks[i].End()
    ensures Malloc(h, bytes, align).heap.brk == h.brk
  {
    var bs, brk, k := MallocPlaces(h, bytes, size, align);
    assert HasRoom(bs[i], size, align);
    if k < i {
      Ordered(bs, k, i);
    }
    assert k <= i;
  }

  /** The same of the search, for all blocks before the last. */
  lemma SearchLowest(h: Heap, size: nat, align: nat)
    requires Valid(h) && h.blocks != [] && size > 0 && size % 16 == 0 && align > 0 && align % 16 == 0
    ensures forall i :: 0 <= i < |h.blocks| - 1 && HasRoom(h.blocks[i], size, align) ==>
              var r := Search(h, size, align); r.ret.Some? && 0 < r.ret.value < h.blocks[i].End() && r.heap.brk == h.brk
  {
    forall i | 0 <= i < |h.blocks| - 1 && HasRoom(h.blocks[i], size, align)
      ensures var r := Search(h, size, align); r.ret.Some? && 0 < r.ret.value < h.blocks[i].End() && r.heap.brk == h.brk
    {
      assert RoundUp16(size) == size && Search(h, size, align) == Malloc(h, size, align);
      MallocLowest(h, size, size, align, i);
      MallocReserves(h, size, align);
    }
  }

  /** `kfree` gives pages back exactly when the block it frees ends up in the last one and that holds more than two pages:
      then all the whole pages, so that less than one stays. */
  lemma FreeGivesBack(h: Heap, k: nat)
    requires Valid(h) && k < |h.blocks| && !h.blocks[k].free
    ensures var g := FreeAt(h, k);
            && g.blocks != [] && g.brk <= h.brk && (h.brk - g.brk) % 4096 == 0
            && var last := g.blocks[|g.blocks| - 1];
               if g.brk < h.brk then last.addr <= h.blocks[k].addr && last.size < 4096 && last.size + (h.brk - g.brk) > 2 * 4096
               else h.blocks[k].addr < last.addr || last.size <= 2 * 4096
  {
    var bs, j := Release(h.blocks, k), ReleasedAt(h.blocks, k);
    ReleaseValid(h.blocks, k, h.start, h.brk);
    ReleasedBelow(h.blocks, k, h.start, h.brk);
    if j < |bs| - 1 {
      Ordered(bs, j, |bs| - 1);
    }
    Pages(Last(bs).size);
  }

  /** The freed block lies in the block it ends up in. */
  lemma ReleasedBelow(bs: seq<Block>, k: nat, lo: nat, hi: nat)
    requires k < |bs| && ValidBlocks(bs, lo, hi) && !bs[k].free
    ensures var r, j := Release(bs, k), ReleasedAt(bs, k); j < |r| && r[j].addr <= bs[k].addr < r[j].End()
  {
    if k > 0 {
      assert bs[k - 1].End() == bs[k].addr;
    }
  }

  lemma Pages(size: nat)
    ensures var n := size / PAGE_SIZE * PAGE_SIZE; n % 4096 == 0 && n <= size < n + 4096
  {
    DivModUnique(size / PAGE_SIZE * PAGE_SIZE, 4096, size / 4096, 0);
  }
}
