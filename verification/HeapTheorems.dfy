/** What holds over every run of `kmalloc_a` and `kfree`, and the exact conditions of success, alignment and undo. */
module HeapTheorems {
  import opened Arith
  import opened Layout
  import opened HeapSpec

  // ---------------------------------------------------------------- reserved blocks

  function Reserved(bs: seq<Block>): set<Block> { set b | b in bs && !b.free }

  /** The list `to` reserves what `from` does and one more block. */
  ghost predicate Adds(from: seq<Block>, to: seq<Block>, n: Block) {
    n !in Reserved(from) && Reserved(to) == Reserved(from) + {n}
  }

  /** Different blocks of a valid heap share no address, headers included. */
  lemma BlocksDisjoint(h: Heap, b: Block, c: Block)
    requires Valid(h) && b in h.blocks && c in h.blocks && b != c
    ensures b.End() <= c.addr || c.End() <= b.addr
  {
    var i :| 0 <= i < |h.blocks| && h.blocks[i] == b;
    var j :| 0 <= j < |h.blocks| && h.blocks[j] == c;
    if i < j {
      Ordered(h.blocks, i, j);
    } else {
      Ordered(h.blocks, j, i);
    }
  }

  /** Every block lies between the bounds of the heap. */
  lemma BlockInside(h: Heap, b: Block)
    requires Valid(h) && b in h.blocks
    ensures h.start <= b.addr && b.End() <= h.brk
  {
    var i :| 0 <= i < |h.blocks| && h.blocks[i] == b;
    if 0 < i {
      Ordered(h.blocks, 0, i);
    }
    if i < |h.blocks| - 1 {
      Ordered(h.blocks, i, |h.blocks| - 1);
    }
  }

  lemma InSplice(bs: seq<Block>, k: nat, ps: seq<Block>, c: Block)
    requires k < |bs|
    ensures c in Splice(bs, k, ps) <==> c in ps || c in bs[..k] || c in bs[k + 1..]
  {
  }

  lemma SpliceReserved(bs: seq<Block>, k: nat, ps: seq<Block>, n: Block)
    requires k < |bs| && bs[k].free && n in ps && !n.free
    requires forall c :: c in ps && !c.free ==> c == n
    ensures Reserved(Splice(bs, k, ps)) == Reserved(bs) + {n}
  {
    forall c: Block
      ensures c in Reserved(Splice(bs, k, ps)) <==> c in Reserved(bs) || c == n
    {
      InSplice(bs, k, ps, c);
      assert bs == bs[..k] + [bs[k]] + bs[k + 1..];
    }
  }

  lemma ResizeReserved(bs: seq<Block>, size: nat)
    requires bs != [] && Last(bs).free
    ensures Reserved(ResizeLast(bs, size)) == Reserved(bs)
  {
    var r := ResizeLast(bs, size);
    forall c: Block
      ensures c in Reserved(r) <==> c in Reserved(bs)
    {
      if c in Reserved(r) {
        var i :| 0 <= i < |r| && r[i] == c;
        assert bs[i] == c;
      }
      if c in Reserved(bs) {
        var i :| 0 <= i < |bs| && bs[i] == c;
        assert r[i] == c;
      }
    }
  }

  lemma PiecesReserved(b: Block, size: nat, align: nat)
    requires align > 0 && align % 16 == 0 && b.addr % 16 == 0 && b.size % 16 == 0 && size % 16 == 0
    requires Fits(b, size, align)
    ensures var n := Block(PayloadAfterPad(b.addr, align) - NODE_SIZE, size, false);
            n in Pieces(b, size, align) && forall c :: c in Pieces(b, size, align) && !c.free ==> c == n
  {
    PadMultiple(b.addr, align);
    var ps := PaddedPieces(b, size, Pad(b.addr, align));
    assert |ps| == 3 || |ps| == 2 || |ps| == 1;
    var i := if |ps| == 3 then 1 else 0;
    assert ps[i] == Block(PayloadAfterPad(b.addr, align) - NODE_SIZE, size, false);
    assert forall j :: 0 <= j < |ps| && j != i ==> ps[j].free;
  }

  /** The piece handed out lies inside the block it is carved from. */
  lemma PieceInside(b: Block, size: nat, align: nat)
    requires align > 0 && align % 16 == 0 && b.addr % 16 == 0 && b.size % 16 == 0 && size % 16 == 0
    requires Fits(b, size, align)
    ensures b.addr + NODE_SIZE <= PayloadAfterPad(b.addr, align)
    ensures PayloadAfterPad(b.addr, align) + size <= b.End()
  {
    PadMultiple(b.addr, align);
  }

  /** Carving a free block of a valid list adds one reserved block, apart from all the others. */
  lemma SpliceAdds(h: Heap, k: nat, ps: seq<Block>, n: Block)
    requires Valid(h) && k < |h.blocks| && h.blocks[k].free
    requires n in ps && !n.free && forall c :: c in ps && !c.free ==> c == n
    requires h.blocks[k].addr <= n.addr && n.End() <= h.blocks[k].End()
    ensures Adds(h.blocks, Splice(h.blocks, k, ps), n)
  {
    SpliceReserved(h.blocks, k, ps, n);
    if n in Reserved(h.blocks) {
      BlocksDisjoint(h, n, h.blocks[k]);
      assert false;
    }
  }

  /** A request reserves one block more at the address returned, or none. */
  ghost predicate Reserves(from: seq<Block>, r: Allocated, size: nat) {
    if r.ret.None? then Reserved(r.heap.blocks) == Reserved(from)
    else r.ret.value >= NODE_SIZE && Adds(from, r.heap.blocks, Block(r.ret.value - NODE_SIZE, size, false))
  }

  lemma CarveReserves(h: Heap, k: nat, size: nat, align: nat)
    requires Valid(h) && k < |h.blocks| && size % 16 == 0 && align > 0 && align % 16 == 0 && Fits(h.blocks[k], size, align)
    ensures Reserves(h.blocks, Carved(h, k, size, align), size)
  {
    var b := h.blocks[k];
    PieceInside(b, size, align);
    PiecesReserved(b, size, align);
    SpliceAdds(h, k, Pieces(b, size, align), Block(PayloadAfterPad(b.addr, align) - NODE_SIZE, size, false));
  }

  lemma SearchReserves(h: Heap, size: nat, align: nat)
    requires Valid(h) && h.blocks != [] && size % 16 == 0 && align > 0 && align % 16 == 0
    ensures Reserves(h.blocks, Search(h, size, align), size)
  {
    var k := FirstFit(h.blocks, 0, size, align);
    if k < |h.blocks| - 1 {
      CarveReserves(h, k, size, align);
    } else if !PastLimit(h.brk, Shortage(h.blocks, size)) {
      GrownReserves(h, size, align);
    }
  }

  /** The last block, enlarged first. */
  lemma GrownReserves(h: Heap, size: nat, align: nat)
    requires Valid(h) && h.blocks != [] && size % 16 == 0 && align > 0 && align % 16 == 0
    requires !PastLimit(h.brk, Shortage(h.blocks, size))
    ensures var g, k := Grow(h, size), |h.blocks| - 1;
            && Valid(g) && Reserves(h.blocks, Allocated(g, None), size)
            && (Fits(g.blocks[k], size, align) ==> Reserves(h.blocks, Carved(g, k, size, align), size))
  {
    GrowValid(h, size);
    var g, k := Grow(h, size), |h.blocks| - 1;
    ResizeReserved(h.blocks, Last(g.blocks).size);
    if Fits(g.blocks[k], size, align) {
      CarveReserves(g, k, size, align);
      SameReserves(g.blocks, h.blocks, Carved(g, k, size, align), size);
    }
  }

  lemma SameReserves(from: seq<Block>, from': seq<Block>, r: Allocated, size: nat)
    requires Reserved(from) == Reserved(from') && Reserves(from, r, size)
    ensures Reserves(from', r, size)
  {
  }

  /** A request reserves exactly one block more, of the rounded size and at the returned address; a request
      that returns NULL reserves none. */
  lemma MallocReserves(h: Heap, bytes: nat, align: nat)
    requires Valid(h) && !h.poisoned && align > 0 && align % 16 == 0
    ensures Reserves(h.blocks, Malloc(h, bytes, align), RoundUp16(bytes))
  {
    var size := RoundUp16(bytes);
    if bytes != 0 && h.blocks != [] {
      SearchReserves(h, size, align);
    } else if bytes != 0 && !PastLimit(h.start, size + PAGE_SIZE) {
      FirstReserves(h, size, align);
    }
  }

  lemma FirstReserves(h: Heap, size: nat, align: nat)
    requires Valid(h) && !h.poisoned && h.blocks == [] && !PastLimit(h.start, size + PAGE_SIZE)
    requires size % 16 == 0 && align > 0 && align % 16 == 0
    ensures Valid(FirstHeap(h, size)) && FirstHeap(h, size).blocks != []
    ensures Reserves(h.blocks, Search(FirstHeap(h, size), size, align), size)
  {
    FirstHeapValid(h, size);
    var f := FirstHeap(h, size);
    assert Reserved(f.blocks) == {} == Reserved(h.blocks);
    SearchReserves(f, size, align);
    SameReserves(f.blocks, h.blocks, Search(f, size, align), size);
  }

  lemma MergeReserved(bs: seq<Block>, k: nat)
    requires k + 1 < |bs| && bs[k].free && bs[k + 1].free
    ensures Reserved(Merge(bs, k)) == Reserved(bs)
  {
    forall c: Block
      ensures c in Reserved(Merge(bs, k)) <==> c in Reserved(bs)
    {
      assert bs == bs[..k] + [bs[k], bs[k + 1]] + bs[k + 2..];
    }
  }

  lemma MarkReserved(bs: seq<Block>, k: nat)
    requires k < |bs| && !bs[k].free
    requires forall i :: 0 <= i < |bs| && i != k ==> bs[i] != bs[k]
    ensures Adds(MarkedFree(bs, k), bs, bs[k])
  {
    var b1 := MarkedFree(bs, k);
    forall c: Block
      ensures c in Reserved(bs) <==> c in Reserved(b1) || c == bs[k]
    {
      if c in bs && !c.free && c != bs[k] {
        var i :| 0 <= i < |bs| && bs[i] == c;
        assert b1[i] == c;
      }
    }
  }

  lemma ReleaseReserved(bs: seq<Block>, k: nat)
    requires k < |bs| && !bs[k].free
    requires forall i :: 0 <= i < |bs| && i != k ==> bs[i] != bs[k]
    ensures Adds(Release(bs, k), bs, bs[k])
  {
    MarkReserved(bs, k);
    var b1 := MarkedFree(bs, k);
    var b2 := MergedRight(b1, k);
    if k + 1 < |b1| && b1[k + 1].free {
      MergeReserved(b1, k);
    }
    if k > 0 && b2[k - 1].free {
      MergeReserved(b2, k - 1);
    }
  }

  /** `kfree` takes exactly its own block out of the reserved ones. */
  lemma FreeReleases(h: Heap, k: nat)
    requires Valid(h) && k < |h.blocks| && !h.blocks[k].free
    ensures Adds(FreeAt(h, k).blocks, h.blocks, h.blocks[k])
  {
    forall i | 0 <= i < |h.blocks| && i != k
      ensures h.blocks[i] != h.blocks[k]
    {
      if i < k {
        Ordered(h.blocks, i, k);
      } else {
        Ordered(h.blocks, k, i);
      }
    }
    ReleaseReserved(h.blocks, k);
    var bs := Release(h.blocks, k);
    ReleaseValid(h.blocks, k, h.start, h.brk);
    PageRemainder(Last(bs).size, h.brk);
    ResizeReserved(bs, Last(bs).size - Last(bs).size / PAGE_SIZE * PAGE_SIZE);
  }

  // ---------------------------------------------------------------- whole runs

  datatype Call = KmallocA(bytes: nat, align: nat) | Kfree(ptr: nat)

  /** What callers owe: a nonzero alignment, a heap whose first request did not fail, and for `kfree` a pointer
      obtained from the heap and not freed since. */
  predicate Legal(h: Heap, c: Call) {
    match c
    case KmallocA(_, align) => align > 0 && !h.poisoned
    case Kfree(ptr) => var k := Find(h.blocks, ptr); k < |h.blocks| && !h.blocks[k].free
  }

  function Do(h: Heap, c: Call): Heap
    requires Valid(h) && Legal(h, c)
  {
    match c
    case KmallocA(bytes, align) => Malloc(h, bytes, RoundUp16(align)).heap
    case Kfree(ptr) => FreeAt(h, Find(h.blocks, ptr))
  }

  lemma DoValid(h: Heap, c: Call)
    requires Valid(h) && Legal(h, c)
    ensures Valid(Do(h, c))
  {
    match c
    case KmallocA(bytes, align) => MallocValid(h, bytes, RoundUp16(align));
    case Kfree(ptr) => FreeAtValid(h, Find(h.blocks, ptr));
  }

  ghost predicate LegalRun(h: Heap, calls: seq<Call>)
    requires Valid(h)
    decreases |calls|
  {
    calls == [] || (Legal(h, calls[0]) && (DoValid(h, calls[0]); LegalRun(Do(h, calls[0]), calls[1..])))
  }

  ghost function Run(h: Heap, calls: seq<Call>): Heap
    requires Valid(h) && LegalRun(h, calls)
    decreases |calls|
  {
    if calls == [] then h else
    DoValid(h, calls[0]);
    Run(Do(h, calls[0]), calls[1..])
  }

  /** The heap before the first request. */
  function Boot(start: nat): Heap { Heap(start, start, [], false) }

  /** After any run of legal calls from boot the blocks tile [start, brk), are 16-byte aligned, never leave two
      free neighbours, and the last one is free. */
  lemma {:induction false} RunValid(h: Heap, calls: seq<Call>)
    requires Valid(h) && LegalRun(h, calls)
    ensures Valid(Run(h, calls))
    decreases |calls|
  {
    if calls != [] {
      DoValid(h, calls[0]);
      RunValid(Do(h, calls[0]), calls[1..]);
    }
  }

  lemma DoKeeps(h: Heap, c: Call, b: Block)
    requires Valid(h) && Legal(h, c) && b in Reserved(h.blocks) && c != Kfree(b.Payload())
    ensures b in Reserved(Do(h, c).blocks)
  {
    match c
    case KmallocA(bytes, align) => MallocReserves(h, bytes, RoundUp16(align));
    case Kfree(ptr) => FreeReleases(h, Find(h.blocks, ptr));
  }

  /** A reserved block keeps its address and size, and stays apart from every other block, through any run
      that does not free it. */
  lemma {:induction false} RunKeeps(h: Heap, calls: seq<Call>, b: Block)
    requires Valid(h) && LegalRun(h, calls) && b in Reserved(h.blocks)
    requires Kfree(b.Payload()) !in calls
    ensures b in Reserved(Run(h, calls).blocks)
    ensures forall c :: c in Run(h, calls).blocks && c != b ==> c.End() <= b.addr || b.End() <= c.addr
    decreases |calls|
  {
    if calls != [] {
      DoValid(h, calls[0]);
      DoKeeps(h, calls[0], b);
      RunKeeps(Do(h, calls[0]), calls[1..], b);
    } else {
      forall c | c in h.blocks && c != b
        ensures c.End() <= b.addr || b.End() <= c.addr
      {
        BlocksDisjoint(h, b, c);
      }
    }
  }

  // ---------------------------------------------------------------- when a request fails

  ghost predicate NoneFitsBeforeLast(h: Heap, size: nat, align: nat)
    requires align > 0
  {
    forall i :: 0 <= i < |h.blocks| - 1 ==> !Fits(h.blocks[i], size, align)
  }

  /** The heap a request searches: the first one makes it. */
  function Searched(h: Heap, size: nat): Heap
    requires h.blocks != [] || !PastLimit(h.start, size + PAGE_SIZE)
  {
    if h.blocks != [] then h else FirstHeap(h, size)
  }

  /** With an alignment of at most a page, a request returns NULL exactly when there is no heap yet and no room to make
      one, or no block before the last fits and the break cannot rise far enough. */
  lemma MallocFailsIff(h: Heap, bytes: nat, align: nat)
    requires Valid(h) && !h.poisoned && bytes > 0 && 0 < align <= PAGE_SIZE && align % 16 == 0
    ensures var size := RoundUp16(bytes);
            Malloc(h, bytes, align).ret.None? <==>
            || (h.blocks == [] && PastLimit(h.start, size + PAGE_SIZE))
            || (var g := Searched(h, size); NoneFitsBeforeLast(g, size, align) && PastLimit(g.brk, Shortage(g.blocks, size)))
  {
    var size := RoundUp16(bytes);
    if h.blocks != [] {
      SearchFailsIff(h, size, align);
    } else if !PastLimit(h.start, size + PAGE_SIZE) {
      FirstHeapValid(h, size);
      SearchFailsIff(FirstHeap(h, size), size, align);
    }
  }

  lemma SearchFailsIff(h: Heap, size: nat, align: nat)
    requires Valid(h) && h.blocks != [] && size % 16 == 0 && 0 < align <= PAGE_SIZE && align % 16 == 0
    ensures Search(h, size, align).ret.None? <==> NoneFitsBeforeLast(h, size, align) && PastLimit(h.brk, Shortage(h.blocks, size))
  {
    var k := FirstFit(h.blocks, 0, size, align);
    if k == |h.blocks| - 1 && !PastLimit(h.brk, Shortage(h.blocks, size)) {
      GrowValid(h, size);
      var b := Last(Grow(h, size).blocks);
      PadMultiple(b.addr, align);
      assert Fits(b, size, align);
    }
  }

  // ---------------------------------------------------------------- alignment of the result

  /** The block a successful request is carved from. */
  function Chosen(h: Heap, size: nat, align: nat): Block
    requires h.blocks != [] && align > 0
  {
    h.blocks[FirstFit(h.blocks, 0, size, align)]
  }

  /** The result is aligned exactly when the chosen header is not 256 bytes below a boundary (the mis-scaled
      test then asks for no padding), or the alignment divides 240, the distance between what is tested and
      what is returned. */
  lemma AlignedIff(h: Heap, bytes: nat, align: nat)
    requires Valid(h) && !h.poisoned && align > 0 && align % 16 == 0 && Malloc(h, bytes, align).ret.Some?
    ensures h.blocks != [] || !PastLimit(h.start, RoundUp16(bytes) + PAGE_SIZE)
    ensures Malloc(h, bytes, align).ret.value % align == 0 <==>
            (Chosen(Searched(h, RoundUp16(bytes)), RoundUp16(bytes), align).addr + 256) % align != 0 || 240 % align == 0
  {
    var size := RoundUp16(bytes);
    if h.blocks == [] {
      FirstHeapValid(h, size);
    }
    SearchAligned(Searched(h, size), size, align);
  }

  /** `kmalloc_pa`, which page tables and directories come from: page-aligned exactly when the chosen header is not 256 bytes
      below a page boundary. */
  lemma PageAlignedIff(h: Heap, bytes: nat)
    requires Valid(h) && !h.poisoned && Malloc(h, bytes, PAGE_SIZE).ret.Some?
    ensures h.blocks != [] || !PastLimit(h.start, RoundUp16(bytes) + PAGE_SIZE)
    ensures Malloc(h, bytes, PAGE_SIZE).ret.value % PAGE_SIZE == 0 <==>
            (Chosen(Searched(h, RoundUp16(bytes)), RoundUp16(bytes), PAGE_SIZE).addr + 256) % PAGE_SIZE != 0
  {
    AlignedIff(h, bytes, PAGE_SIZE);
  }

  lemma SearchAligned(h: Heap, size: nat, align: nat)
    requires Valid(h) && h.blocks != [] && size % 16 == 0 && align > 0 && align % 16 == 0 && Search(h, size, align).ret.Some?
    ensures Search(h, size, align).ret.value % align == 0 <==>
            (Chosen(h, size, align).addr + 256) % align != 0 || 240 % align == 0
  {
    var a := Chosen(h, size, align).addr;
    assert Search(h, size, align).ret.value == PayloadAfterPad(a, align);
    PayloadAligned(a, align);
  }

  lemma PayloadAligned(a: nat, align: nat)
    requires align > 0 && align % 16 == 0 && a % 16 == 0
    ensures PayloadAfterPad(a, align) % align == 0 <==> (a + 256) % align != 0 || 240 % align == 0
  {
    var q, r := a / align, a % align;
    assert a == q * align + r;
    if (a + 256) % align != 0 {
      assert PayloadAfterPad(a, align) == a + (align - r);
      assert a + (align - r) == (q + 1) * align;
      DivModUnique(a + (align - r), align, q + 1, 0);
    } else {
      var t := (a + 256) / align;
      assert a + 256 == t * align;
      assert PayloadAfterPad(a, align) == t * align - 240;
      DifferenceMod(t, align, 240);
    }
  }

  /** `kmalloc` (alignment 16) always returns a 16-byte aligned address. */
  lemma KmallocAligned(h: Heap, bytes: nat)
    requires Valid(h) && !h.poisoned && Malloc(h, bytes, 16).ret.Some?
    ensures Malloc(h, bytes, 16).ret.value % 16 == 0
  {
    AlignedIff(h, bytes, 16);
  }

  /** The heap after a first `kmalloc(3824)`: its free block starts 256 bytes below a page boundary. */
  lemma AfterFirstCall(start: nat)
    requires 0 < start <= 0x0100_0000 && start % PAGE_SIZE == 0
    ensures Malloc(Boot(start), 3824, 16).heap.blocks == [Block(start, 3824, false), Block(start + 3840, 4336, true)]
  {
    var f := FirstHeap(Boot(start), 3824);
    assert f.blocks == [Block(start, 8176, true)];
    FirstHeapValid(Boot(start), 3824);
    assert Pad(start, 16) == 0;
    assert Grow(f, 3824) == f;
    assert Pieces(f.blocks[0], 3824, 16) == [Block(start, 3824, false), Block(start + 3840, 4336, true)];
  }

  /** Two calls from boot that end in a page-aligned request with an unaligned result. */
  lemma PageRequestMisaligned(start: nat)
    requires 0 < start <= 0x0100_0000 && start % PAGE_SIZE == 0
    ensures var h := Malloc(Boot(start), 3824, 16).heap;
            && Valid(h)
            && Malloc(h, PAGE_SIZE, PAGE_SIZE).ret == Some(start + 3856)
            && (start + 3856) % PAGE_SIZE != 0
  {
    MallocValid(Boot(start), 3824, 16);
    AfterFirstCall(start);
    SecondCall(start, Malloc(Boot(start), 3824, 16).heap);
  }

  lemma SecondCall(start: nat, h: Heap)
    requires 0 < start <= 0x0100_0000 && start % PAGE_SIZE == 0 && Valid(h) && !h.poisoned
    requires h.blocks == [Block(start, 3824, false), Block(start + 3840, 4336, true)]
    ensures Malloc(h, PAGE_SIZE, PAGE_SIZE).ret == Some(start + 3856) && (start + 3856) % PAGE_SIZE != 0
  {
    assert Pad(start + 3840, PAGE_SIZE) == 0;
    assert FirstFit(h.blocks, 0, PAGE_SIZE, PAGE_SIZE) == 1;
    assert Shortage(h.blocks, PAGE_SIZE) == 3856 && !PastLimit(h.brk, 3856);
    GrowValid(h, PAGE_SIZE);
    assert Grow(h, PAGE_SIZE).blocks[1] == Block(start + 3840, 4336 + 4096, true);
    assert RoundUp16(PAGE_SIZE) == PAGE_SIZE;
  }

  // ---------------------------------------------------------------- kfree undoes kmalloc

  /** Position of the reserved piece. */
  function PieceIndex(ps: seq<Block>): nat { if |ps| == 3 then 1 else 0 }

  lemma ReleasePadded(bs: seq<Block>, j: nat, x: Block, y: Block, z: Block)
    requires j < |bs| && bs[j].free && x.free && !y.free && z.free
    requires bs[j] == Block(x.addr, x.size + y.size + z.size + 2 * NODE_SIZE, true)
    ensures var s := Splice(bs, j, [x, y, z]); Release(s, j + 1) == bs && ReleasedAt(s, j + 1) == j
  {
    var s := Splice(bs, j, [x, y, z]);
    var b1 := s[j + 1 := y.(free := true)];
    var b2 := Merge(b1, j + 1);
    assert b2 == bs[..j] + [x, y.(free := true, size := y.size + z.size + NODE_SIZE)] + bs[j + 1..];
    assert Merge(b2, j) == bs[..j] + [bs[j]] + bs[j + 1..];
  }

  lemma ReleaseSplit(bs: seq<Block>, j: nat, y: Block, z: Block)
    requires j < |bs| && bs[j].free && Coalesced(bs) && !y.free && z.free
    requires bs[j] == Block(y.addr, y.size + z.size + NODE_SIZE, true)
    ensures var s := Splice(bs, j, [y, z]); Release(s, j) == bs && ReleasedAt(s, j) == j
  {
    var s := Splice(bs, j, [y, z]);
    var b1 := s[j := y.(free := true)];
    assert Merge(b1, j) == bs[..j] + [bs[j]] + bs[j + 1..] == bs;
    assert j > 0 ==> !bs[j - 1].free;
  }

  lemma ReleaseExact(bs: seq<Block>, j: nat)
    requires j < |bs| && bs[j].free && Coalesced(bs)
    ensures var s := Splice(bs, j, [bs[j].(free := false)]); Release(s, j) == bs && ReleasedAt(s, j) == j
  {
    var s := Splice(bs, j, [bs[j].(free := false)]);
    assert s == bs[j := bs[j].(free := false)];
    assert s[j := s[j].(free := true)] == bs;
    assert j + 1 < |bs| ==> !bs[j + 1].free;
    assert j > 0 ==> !bs[j - 1].free;
  }

  lemma ReleasePieces(bs: seq<Block>, j: nat, size: nat, p: nat)
    requires j < |bs| && bs[j].free && Coalesced(bs)
    requires p % 16 == 0 && bs[j].size % 16 == 0 && size % 16 == 0 && bs[j].size >= size + p
    ensures var ps := PaddedPieces(bs[j], size, p);
            var s := Splice(bs, j, ps);
            Release(s, j + PieceIndex(ps)) == bs && ReleasedAt(s, j + PieceIndex(ps)) == j
  {
    var b := bs[j];
    var ps := PaddedPieces(b, size, p);
    if p != 0 && p != NODE_SIZE {
      ReleasePadded(bs, j, ps[0], ps[1], ps[2]);
      assert ps == [ps[0], ps[1], ps[2]];
    } else if b.size != size {
      ReleaseSplit(bs, j, ps[0], ps[1]);
      assert ps == [ps[0], ps[1]];
    } else {
      ReleaseExact(bs, j);
    }
  }

  lemma FindIs(h: Heap, k: nat)
    requires Valid(h) && k < |h.blocks|
    ensures Find(h.blocks, h.blocks[k].Payload()) == k
  {
    var f := Find(h.blocks, h.blocks[k].Payload());
    if f < k {
      Ordered(h.blocks, f, k);
    } else if k < f {
      Ordered(h.blocks, k, f);
    }
  }

  /** Freeing the block just carved from block j puts the list back, up to giving pages back. */
  lemma FreeCarved(h: Heap, j: nat, size: nat, align: nat)
    requires Valid(h) && j < |h.blocks| && size % 16 == 0 && align > 0 && align % 16 == 0
    requires Fits(h.blocks[j], size, align)
    requires Valid(h.(blocks := Splice(h.blocks, j, Pieces(h.blocks[j], size, align))))
    ensures var g := h.(blocks := Splice(h.blocks, j, Pieces(h.blocks[j], size, align)));
            var k := j + PieceIndex(Pieces(h.blocks[j], size, align));
            && k < |g.blocks| && !g.blocks[k].free
            && g.blocks[k].Payload() == PayloadAfterPad(h.blocks[j].addr, align)
            && FreeAt(g, k) == if j == |h.blocks| - 1 && Last(h.blocks).size > 2 * PAGE_SIZE then Shrink(h) else h
  {
    var b := h.blocks[j];
    PadMultiple(b.addr, align);
    var p := Pad(b.addr, align);
    ReleasePieces(h.blocks, j, size, p);
    var ps := PaddedPieces(b, size, p);
    assert Splice(h.blocks, j, ps)[j + PieceIndex(ps)] == ps[PieceIndex(ps)];
  }

  /** h with its break and the end of its last block raised by n. */
  function Raised(h: Heap, n: nat): Heap
    requires h.blocks != []
  {
    h.(brk := h.brk + n, blocks := ResizeLast(h.blocks, Last(h.blocks).size + n))
  }

  /** A successful search carves block j of the heap raised by n. */
  lemma SearchCarves(h: Heap, size: nat, align: nat) returns (n: nat, j: nat)
    requires Valid(h) && h.blocks != [] && size % 16 == 0 && align > 0 && align % 16 == 0
    requires Search(h, size, align).ret.Some?
    ensures Valid(Raised(h, n)) && j < |h.blocks| && Fits(Raised(h, n).blocks[j], size, align)
    ensures var g := Raised(h, n);
            Search(h, size, align) == Allocated(g.(blocks := Splice(g.blocks, j, Pieces(g.blocks[j], size, align))),
                                                Some(PayloadAfterPad(g.blocks[j].addr, align)))
  {
    j := FirstFit(h.blocks, 0, size, align);
    if j < |h.blocks| - 1 {
      n := 0;
      assert Raised(h, 0) == h;
    } else {
      n := PageUp(Shortage(h.blocks, size));
      GrowValid(h, size);
    }
  }

  /** f is h with its last block ending at another break; equal breaks make equal heaps. */
  ghost predicate SameUpToBreak(h: Heap, f: Heap) {
    && h.blocks != [] && Last(h.blocks).size + f.brk >= h.brk
    && f == h.(brk := f.brk, blocks := ResizeLast(h.blocks, Last(h.blocks).size + f.brk - h.brk))
    && (f.brk == h.brk ==> f == h)
  }

  lemma RaisedSame(h: Heap, n: nat)
    requires Valid(h) && h.blocks != [] && Valid(Raised(h, n))
    ensures SameUpToBreak(h, Raised(h, n)) && SameUpToBreak(h, Shrink(Raised(h, n)))
  {
    assert ResizeLast(h.blocks, Last(h.blocks).size) == h.blocks;
  }

  lemma UndoCarve(h: Heap, n: nat, j: nat, size: nat, align: nat, m: Heap, p: nat)
    requires Valid(h) && h.blocks != [] && Valid(Raised(h, n)) && j < |h.blocks|
    requires size % 16 == 0 && align > 0 && align % 16 == 0 && Fits(Raised(h, n).blocks[j], size, align)
    requires var g := Raised(h, n);
             && m == g.(blocks := Splice(g.blocks, j, Pieces(g.blocks[j], size, align)))
             && p == PayloadAfterPad(g.blocks[j].addr, align)
    requires Valid(m)
    ensures var k := Find(m.blocks, p); k < |m.blocks| && !m.blocks[k].free && SameUpToBreak(h, FreeAt(m, k))
  {
    var g := Raised(h, n);
    FreeCarved(g, j, size, align);
    FindIs(m, j + PieceIndex(Pieces(g.blocks[j], size, align)));
    RaisedSame(h, n);
  }

  lemma FreeUndoesSearch(h: Heap, size: nat, align: nat, m: Heap, p: nat)
    requires Valid(h) && h.blocks != [] && size % 16 == 0 && align > 0 && align % 16 == 0
    requires Search(h, size, align) == Allocated(m, Some(p)) && Valid(m)
    ensures var k := Find(m.blocks, p); k < |m.blocks| && !m.blocks[k].free && SameUpToBreak(h, FreeAt(m, k))
  {
    var n, j := SearchCarves(h, size, align);
    UndoCarve(h, n, j, size, align, m, p);
  }

  /** `kfree(kmalloc(n))`: the list of blocks is the old one, with its last block ending at the break.  So
      whenever the break did not move, the heap is exactly what it was. */
  lemma FreeUndoesMalloc(h: Heap, bytes: nat, align: nat)
    requires Valid(h) && h.blocks != [] && align > 0 && align % 16 == 0
    requires Malloc(h, bytes, align).ret.Some?
    ensures var m := Malloc(h, bytes, align);
            && Valid(m.heap) && Legal(m.heap, Kfree(m.ret.value))
            && SameUpToBreak(h, Do(m.heap, Kfree(m.ret.value)))
  {
    MallocValid(h, bytes, align);
    var m := Malloc(h, bytes, align);
    assert m == Search(h, RoundUp16(bytes), align);
    assert Search(h, RoundUp16(bytes), align) == Allocated(m.heap, Some(m.ret.value));
    FreedAgain(h, RoundUp16(bytes), align, m.heap, m.ret.value);
  }

  lemma FreedAgain(h: Heap, size: nat, align: nat, m: Heap, p: nat)
    requires Valid(h) && h.blocks != [] && size % 16 == 0 && align > 0 && align % 16 == 0
    requires Search(h, size, align) == Allocated(m, Some(p)) && Valid(m)
    ensures Legal(m, Kfree(p)) && SameUpToBreak(h, Do(m, Kfree(p)))
  {
    FreeUndoesSearch(h, size, align, m, p);
    FreeOne(h, m, p);
  }

  lemma FreeOne(h: Heap, m: Heap, p: nat)
    requires Valid(m) && h.blocks != []
    requires var k := Find(m.blocks, p); k < |m.blocks| && !m.blocks[k].free && SameUpToBreak(h, FreeAt(m, k))
    ensures Legal(m, Kfree(p)) && SameUpToBreak(h, Do(m, Kfree(p)))
  {
  }

  // ---------------------------------------------------------------- how a page table moves the break

  /** A heap of n pages that is one free block. */
  function OneFree(start: nat, n: nat): Heap
    requires n > 0
  {
    Heap(start, start + PAGE_SIZE * n, [Block(start, PAGE_SIZE * n - NODE_SIZE, true)], false)
  }

  /** The same heap with a table in its second page. */
  function WithTable(start: nat, n: nat): Heap
    requires n > 2
  {
    OneFree(start, n).(blocks := [Block(start, PAGE_SIZE - 2 * NODE_SIZE, true), Block(start + PAGE_SIZE - NODE_SIZE, PAGE_SIZE, false),
                                  Block(start + 2 * PAGE_SIZE, PAGE_SIZE * (n - 2) - NODE_SIZE, true)])
  }

  lemma PagesAligned(start: nat, n: nat, m: nat)
    requires start % PAGE_SIZE == 0 && n > 0 && m == PAGE_SIZE * n
    ensures m >= PAGE_SIZE && start % 16 == 0 && m % 16 == 0 && (start + m) % PAGE_SIZE == 0
  {
    DivModUnique(start, 16, 256 * (start / PAGE_SIZE), 0);
    DivModUnique(m, 16, 256 * n, 0);
    DivModUnique(start + m, PAGE_SIZE, start / PAGE_SIZE + n, 0);
  }

  lemma OneFreeValid(start: nat, n: nat)
    requires 0 < start && start % PAGE_SIZE == 0 && n > 0 && start + PAGE_SIZE * n <= KSTACK_BEGIN
    ensures Valid(OneFree(start, n))
  {
    var m := PAGE_SIZE * n;
    PagesAligned(start, n, m);
    assert OneFree(start, n) == Heap(start, start + m, [Block(start, m - NODE_SIZE, true)], false);
  }

  lemma WithTableValid(start: nat, n: nat)
    requires 0 < start && start % PAGE_SIZE == 0 && n > 2 && start + PAGE_SIZE * n <= KSTACK_BEGIN
    ensures Valid(WithTable(start, n))
  {
    PagesAligned(start, n, PAGE_SIZE * n);
    PagesAligned(start, n - 2, PAGE_SIZE * (n - 2));
  }

  lemma TableRoom(start: nat, n: nat, m: nat)
    requires n > 0 && m == (if n < 3 then 3 else n) && start + PAGE_SIZE * m <= KSTACK_BEGIN
    ensures Grow(OneFree(start, n), PAGE_SIZE) == OneFree(start, m)
    ensures !PastLimit(start + PAGE_SIZE * n, Shortage(OneFree(start, n).blocks, PAGE_SIZE))
  {
    assert Shortage(OneFree(start, n).blocks, PAGE_SIZE) == if n == 1 then 4112 else if n == 2 then 16 else 0;
  }

  lemma TablePlaced(start: nat, n: nat)
    requires 0 < start && start % PAGE_SIZE == 0 && n > 2 && start + PAGE_SIZE * n <= KSTACK_BEGIN
    ensures Valid(OneFree(start, n)) && Carvable(OneFree(start, n))
    ensures Carved(OneFree(start, n), 0, PAGE_SIZE, PAGE_SIZE) == Allocated(WithTable(start, n), Some(start + PAGE_SIZE))
  {
    OneFreeValid(start, n);
    var g := OneFree(start, n);
    var b := g.blocks[0];
    assert (start + 256) % PAGE_SIZE == 256 && Pad(start, PAGE_SIZE) == PAGE_SIZE;
    assert Pieces(b, PAGE_SIZE, PAGE_SIZE) == WithTable(start, n).blocks;
    assert Splice(g.blocks, 0, Pieces(b, PAGE_SIZE, PAGE_SIZE)) == WithTable(start, n).blocks;
  }

  /** A page fits into the first block. */
  ghost predicate Carvable(h: Heap) { h.blocks != [] && Aligned(h.blocks) && Fits(h.blocks[0], PAGE_SIZE, PAGE_SIZE) }

  /** Asking it for a page table raises the break to three pages, if it is not there yet. */
  lemma TableTaken(start: nat, n: nat, m: nat)
    requires 0 < start && start % PAGE_SIZE == 0 && n > 0 && m == (if n < 3 then 3 else n) && start + PAGE_SIZE * m <= KSTACK_BEGIN
    ensures Valid(OneFree(start, n))
    ensures Malloc(OneFree(start, n), PAGE_SIZE, PAGE_SIZE) == Allocated(WithTable(start, m), Some(start + PAGE_SIZE))
  {
    OneFreeValid(start, n);
    TableRoom(start, n, m);
    TablePlaced(start, m);
    assert RoundUp16(PAGE_SIZE) == PAGE_SIZE;
  }

  /** Giving it back leaves one page: the break falls by all the others. */
  lemma TableGivenBack(start: nat, n: nat)
    requires 0 < start && start % PAGE_SIZE == 0 && n > 2 && start + PAGE_SIZE * n <= KSTACK_BEGIN
    ensures Valid(WithTable(start, n)) && Legal(WithTable(start, n), Kfree(start + PAGE_SIZE))
    ensures Do(WithTable(start, n), Kfree(start + PAGE_SIZE)) == OneFree(start, 1)
  {
    OneFreeValid(start, n);
    WithTableValid(start, n);
    var h, bs := WithTable(start, n), OneFree(start, n).blocks;
    FindIs(h, 1);
    ReleasePadded(bs, 0, h.blocks[0], h.blocks[1], h.blocks[2]);
    assert Splice(bs, 0, [h.blocks[0], h.blocks[1], h.blocks[2]]) == h.blocks;
    assert Release(h.blocks, 1) == bs && ReleasedAt(h.blocks, 1) == 0;
    assert (PAGE_SIZE * n - NODE_SIZE) / PAGE_SIZE == n - 1;
  }

  /** The first table after boot, and every later one taken when the heap has fallen to one page, moves the break in the
      same way: up to three pages, and two pages down when it is given back. */
  lemma TableCycle(start: nat)
    requires 0 < start && start % PAGE_SIZE == 0 && start + 3 * PAGE_SIZE <= KSTACK_BEGIN
    ensures Valid(OneFree(start, 1)) && Malloc(Boot(start), PAGE_SIZE, PAGE_SIZE) == Malloc(OneFree(start, 1), PAGE_SIZE, PAGE_SIZE)
    ensures var m := Malloc(OneFree(start, 1), PAGE_SIZE, PAGE_SIZE);
            && m.ret == Some(start + PAGE_SIZE) && m.heap.brk == start + 3 * PAGE_SIZE
            && Valid(m.heap) && Legal(m.heap, Kfree(start + PAGE_SIZE)) && Do(m.heap, Kfree(start + PAGE_SIZE)) == OneFree(start, 1)
  {
    TableTaken(start, 1, 3);
    TableTaken(start, 2, 3);
    WithTableValid(start, 3);
    TableGivenBack(start, 3);
    assert FirstHeap(Boot(start), PAGE_SIZE) == OneFree(start, 2);
  }
}
