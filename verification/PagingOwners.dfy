/** The kernel heap while address spaces come and go: what fork, the user heap and the end of a task leave of it. */
module PagingOwners {
  import opened PagingSpec
  import opened PagingClone
  import opened PagingKernel
  import opened PagingBreak

  /** The kernel heap from page lo up to the break at page b, with the copy window closed. */
  ghost predicate HeapState(w: World, k: nat, lo: int, b: int) {
    KernelMaps(w.space, k) && HeapThere(w.space, k, lo, b) && HeapOwned(w, k, lo) && Lookup(w.space, k, 0) == NO_ENTRY
  }

  /** The pictures in which everybody owns their frames: no frame backs two private pages, and the kernel heap has frames
      of its own. */
  ghost function Sound(k: nat, lo: int, b: int): iset<World> {
    iset w: World | Exclusive(w) && HeapState(w, k, lo, b) && Furnished(w)
  }

  /** There is memory behind every frame. */
  ghost predicate Furnished(w: World) { forall f {:trigger f in w.mem} :: 0 <= f < FRAMES ==> f in w.mem }

  /** The pages below the kernel stack are as they were. */
  ghost predicate KernelSame(s0: Space, s: Space, k: nat) {
    && k in s0.dirs && k in s.dirs && ShapeOk(s0, k) && ShapeOk(s, k)
    && forall q {:trigger Lookup(s, k, q)} :: 0 <= q < KSTACK_PAGE ==> Lookup(s, k, q) == Lookup(s0, k, q)
  }

  /** No frame but private ones is given up, and private pages get only frames that were free. */
  ghost predicate FramesRespected(w0: World, w: World) {
    && Shaped(w0.space) && Shaped(w.space)
    && (forall f {:trigger f in w.used} :: f in w0.used && !Private(w0.space, f) ==> f in w.used)
    && (forall f {:trigger Private(w.space, f)} :: Private(w.space, f) ==> Private(w0.space, f) || f !in w0.used)
  }

  /** What does not touch the kernel's pages and frames keeps the kernel heap. */
  lemma StateKept(w0: World, w: World, k: nat, lo: int, b: int)
    requires HeapState(w0, k, lo, b) && KernelMaps(w.space, k) && KernelSame(w0.space, w.space, k) && FramesRespected(w0, w)
    ensures HeapState(w, k, lo, b)
  {
    var s0, s := w0.space, w.space;
    forall q | 0 <= q < KSTACK_PAGE
      ensures (Has(s, k, q) <==> Has(s0, k, q)) && FrameOf(s, k, q) == FrameOf(s0, k, q)
    {
      assert Lookup(s, k, q) == Lookup(s0, k, q);
    }
    OwnedKept(w0, w, k, lo);
    assert Lookup(s, k, 0) == Lookup(s0, k, 0);
  }

  lemma OwnedKept(w0: World, w: World, k: nat, lo: int)
    requires HeapOwned(w0, k, lo) && KernelSame(w0.space, w.space, k) && FramesRespected(w0, w)
    ensures HeapOwned(w, k, lo)
  {
    var s0, s := w0.space, w.space;
    forall q | lo <= q < KSTACK_PAGE && Has(s, k, q)
      ensures FrameOf(s, k, q) in w.used && !Private(s, FrameOf(s, k, q))
    {
      assert Lookup(s, k, q) == Lookup(s0, k, q) && Has(s0, k, q);
    }
    forall q, r | lo <= q < r < KSTACK_PAGE && Has(s, k, q) && Has(s, k, r)
      ensures FrameOf(s, k, q) != FrameOf(s, k, r)
    {
      assert Lookup(s, k, q) == Lookup(s0, k, q) && Lookup(s, k, r) == Lookup(s0, k, r);
      assert FrameOf(s0, k, q) != FrameOf(s0, k, r);
    }
  }

  /** A heap in order can fall. */
  lemma SoundWorkable(w: World, k: nat, lo: int, b: int)
    requires w in Sound(k, lo, b) && forall f :: f in w.used ==> f < FRAMES
    ensures w in Workable(k, lo, b)
  {
  }

  /** Whether the heap is still in order after a fall is a matter of ownership. */
  lemma FallState(w0: World, w: World, k: nat, lo: int, b: int, n: nat, p: int)
    requires w0 in Sound(k, lo, b) && w in Fallen(w0, k, b, n) && lo <= p == b - n
    ensures HeapThere(w0.space, k, lo, b) && Shaped(w0.space)
    ensures w in Sound(k, lo, p) <==> Safe(w0, k, lo, b, n)
  {
    TreeLinked(w0.space, w.space, k);
    FallHeap(w0, w, k, lo, b, n);
    FallOwnedIff(w0, w, k, lo, b, n);
    assert FallenAt(w0, w, k, b, n, k, 0);
  }

  /** A rise keeps the heap in order. */
  lemma RiseState(w0: World, w: World, k: nat, lo: int, b: int, fs: seq<nat>, p: int)
    requires w0 in Sound(k, lo, b) && w in Risen(w0, k, b, fs) && p == b + |fs|
    ensures w in Sound(k, lo, p)
  {
    TreeLinked(w0.space, w.space, k);
    RiseHeap(w0, w, k, lo, b, fs);
    RiseOwned(w0, w, k, lo, b, fs);
    assert RisenAt(w0, w, b, fs, k, 0);
  }

  // ---------------------------------------------------------------- boot

  /** At boot the heap is empty, above the identity map. */
  lemma BootState(w: World, k: nat, tables: seq<nat>, n: int)
    requires StackMapped(w, k, tables, n, 1024 * KERNEL_TABLES) && 1 <= n <= KSTACK_PAGE
    ensures HeapState(w, k, n, n) && !Private(w.space, 0) && 0 in w.used
  {
    NoFlags();
    OneDirLinked(w.space, k, tables);
    forall q | KSTACK_PAGE <= q < PAGES && Has(w.space, k, q)
      ensures FrameOf(w.space, k, q) != 0
    {
    }
    forall q | n <= q < KSTACK_PAGE
      ensures !Has(w.space, k, q)
    {
      assert Lookup(w.space, k, q) == Identity(n, q);
    }
    assert Lookup(w.space, k, 0) == Identity(n, 0);
  }

  // ---------------------------------------------------------------- single private pages

  lemma TableStays(s: Space, k: nat, d: nat, p: int, frame: nat, flags: bv32, at: nat)
    requires Valid(s) && Linked(s, k) && KernelMaps(s, k) && d in s.dirs && KSTACK_PAGE <= p < PAGES && at != 0 && at !in s.tabs
    ensures KernelMaps(Mapped(s, d, p, frame, flags, at), k)
  {
    assert ShapeOk(s, d);
    MapValid(s, d, MapCall(p, frame, flags, at));
    MapLinked(s, k, d, p, frame, flags, at);
    assert ShapeOk(Mapped(s, d, p, frame, flags, at), k);
  }

  lemma AddKept(w: World, d: nat, p: int, f: nat, flags: bv32, at: nat, content: Page, k: nat, lo: int, b: int)
    requires HeapState(w, k, lo, b) && d in w.space.dirs && KSTACK_PAGE <= p < PAGES && at != 0 && at !in w.space.tabs && f !in w.used
    ensures HeapState(AddPage(w, d, p, f, flags, at, content), k, lo, b)
  {
    var u := AddPage(w, d, p, f, flags, at, content);
    TableStays(w.space, k, d, p, f, flags, at);
    AddKernelSame(w, d, p, f, flags, at, content, k);
    forall g | Private(u.space, g)
      ensures Private(w.space, g) || g !in w.used
    {
      var e, q :| e in u.space.dirs && KSTACK_PAGE <= q < PAGES && Has(u.space, e, q) && FrameOf(u.space, e, q) == g;
      AddLookup(w, d, p, f, flags, at, content, e, q);
      assert FrameOf(w.space, e, q) == Lookup(w.space, e, q).frame;
    }
    StateKept(w, u, k, lo, b);
  }

  lemma AddKernelSame(w: World, d: nat, p: int, f: nat, flags: bv32, at: nat, content: Page, k: nat)
    requires Valid(w.space) && d in w.space.dirs && k in w.space.dirs && KSTACK_PAGE <= p < PAGES && at != 0 && at !in w.space.tabs
    ensures KernelSame(w.space, AddPage(w, d, p, f, flags, at, content).space, k)
  {
    AddLookup(w, d, p, f, flags, at, content, k, 0);
    forall q | 0 <= q < KSTACK_PAGE
      ensures Lookup(AddPage(w, d, p, f, flags, at, content).space, k, q) == Lookup(w.space, k, q)
    {
      AddLookup(w, d, p, f, flags, at, content, k, q);
    }
  }

  lemma FreeKept(w: World, d: nat, p: int, at: nat, k: nat, lo: int, b: int)
    requires HeapState(w, k, lo, b) && d in w.space.dirs && KSTACK_PAGE <= p < PAGES && at != 0 && at !in w.space.tabs
    requires ShapeOk(w.space, d) && Has(w.space, d, p)
    ensures HeapState(FreePage(w, d, p, at), k, lo, b)
  {
    var u := FreePage(w, d, p, at);
    NoFlags();
    TableStays(w.space, k, d, p, 0, 0, at);
    AddKernelSame(w, d, p, 0, 0, at, [], k);
    assert Private(w.space, FrameOf(w.space, d, p));
    forall g | Private(u.space, g)
      ensures Private(w.space, g)
    {
      var e, q :| e in u.space.dirs && KSTACK_PAGE <= q < PAGES && Has(u.space, e, q) && FrameOf(u.space, e, q) == g;
      FreeLookup(w, d, p, at, e, q);
      assert FrameOf(w.space, e, q) == g;
    }
    StateKept(w, u, k, lo, b);
  }

  lemma AddSound(w: World, d: nat, p: int, f: nat, flags: bv32, at: nat, content: Page, k: nat, lo: int, b: int)
    requires w in Sound(k, lo, b) && d in w.space.dirs && KSTACK_PAGE <= p < PAGES && at != 0 && at !in w.space.tabs && f !in w.used
    ensures AddPage(w, d, p, f, flags, at, content) in Sound(k, lo, b)
  {
    AddExclusive(w, d, p, f, flags, at, content);
    AddKept(w, d, p, f, flags, at, content, k, lo, b);
  }

  lemma FreeSound(w: World, d: nat, p: int, at: nat, k: nat, lo: int, b: int)
    requires w in Sound(k, lo, b) && d in w.space.dirs && KSTACK_PAGE <= p < PAGES && at != 0 && at !in w.space.tabs
    requires ShapeOk(w.space, d) && Has(w.space, d, p)
    ensures FreePage(w, d, p, at) in Sound(k, lo, b)
  {
    FreeExclusive(w, d, p, at);
    FreeKept(w, d, p, at, k, lo, b);
  }

  // ---------------------------------------------------------------- fork

  /** The pictures in which pages of cur may be copied to the child. */
  ghost function Ready(win: nat, cur: nat, child: nat): iset<World> { iset w: World | Sees(w.space, win, cur, child) && Furnished(w) }

  lemma CopyReady(w: World, win: nat, cur: nat, child: nat, p: int, f: nat, at: nat)
    requires w in Ready(win, cur, child) && KSTACK_PAGE <= p < PAGES && at != 0 && at !in w.space.tabs
    requires FrameOf(w.space, cur, p) in w.mem && f !in w.used
    ensures CopyPage(w, win, cur, child, p, f, at) in Copies(w, cur, child, p, f)
    ensures CopyPage(w, win, cur, child, p, f, at) in Ready(win, cur, child)
  {
    PageCopied(w, win, cur, child, p, f, at);
  }

  lemma ForkSees(w: World, k: nat, cur: nat, child: nat)
    requires KernelMaps(w.space, k) && Lookup(w.space, k, 0) == NO_ENTRY && cur in w.space.dirs && child !in w.space.dirs
    ensures var s := WithDir(w.space, child); Sees(s, k, cur, child) && Blank(s, child)
  {
    NewDir(w, k, child);
    NewDirShape(w.space, child);
    var s := WithDir(w.space, child);
    assert ShapeOk(s, k) && Lookup(s, k, 0) == Lookup(w.space, k, 0);
    SeesNew(s, k, cur, child);
  }

  /** Fork changes no page of an address space that was there. */
  lemma ForkSame(w: World, w1: World, k: nat, cur: nat, child: nat, e: nat, q: int)
    requires KernelMaps(w.space, k) && Lookup(w.space, k, 0) == NO_ENTRY && cur in w.space.dirs && child !in w.space.dirs
    requires w1 in Cloned(Blanked(w, cur, child), cur, child, PAGES) && e in w.space.dirs && 0 <= q < PAGES
    ensures e in w1.space.dirs && ShapeOk(w1.space, e) && ShapeOk(w.space, e) && Lookup(w1.space, e, q) == Lookup(w.space, e, q)
  {
    ForkSees(w, k, cur, child);
    NewDirShape(w.space, child);
    var v := w.(space := WithDir(w.space, child));
    CloneStart(v, cur, child);
    var s0 := Blanked(w, cur, child).space;
    assert s0 == Shared(v.space, cur, child);
    assert ShapeOk(w1.space, e) && Lookup(w1.space, e, q) == Lookup(s0, e, q);
    assert Lookup(s0, e, q) == Lookup(v.space, e, q);
    assert Lookup(v.space, e, q) == Lookup(w.space, e, q);
  }

  lemma ForkMaps(w: World, w1: World, k: nat, cur: nat, child: nat)
    requires KernelMaps(w.space, k) && cur in w.space.dirs && child !in w.space.dirs && Linked(w1.space, k)
    requires w1 in Cloned(Blanked(w, cur, child), cur, child, PAGES)
    ensures KernelMaps(w1.space, k)
  {
    var s0 := Blanked(w, cur, child).space;
    assert KeepsTables(s0, w1.space, k);
    assert s0.dirs[k].tables == w.space.dirs[k].tables;
    assert ShapeOk(w1.space, k);
  }

  lemma ForkPrivate(w: World, w1: World, k: nat, cur: nat, child: nat, f: nat)
    requires KernelMaps(w.space, k) && Lookup(w.space, k, 0) == NO_ENTRY && cur in w.space.dirs && child !in w.space.dirs
    requires w1 in Cloned(Blanked(w, cur, child), cur, child, PAGES) && Private(w1.space, f)
    ensures Private(w.space, f) || f !in w.used
  {
    var e, q :| e in w1.space.dirs && KSTACK_PAGE <= q < PAGES && Has(w1.space, e, q) && FrameOf(w1.space, e, q) == f;
    if e == child {
      assert Copied(Blanked(w, cur, child), w1, cur, child, q);
    } else {
      ForkSame(w, w1, k, cur, child, e, q);
      assert FrameOf(w.space, e, q) == f;
    }
  }

  lemma ForkKept(w: World, w1: World, k: nat, cur: nat, child: nat, lo: int, b: int)
    requires HeapState(w, k, lo, b) && cur in w.space.dirs && child !in w.space.dirs && Linked(w1.space, k)
    requires w1 in Cloned(Blanked(w, cur, child), cur, child, PAGES)
    ensures HeapState(w1, k, lo, b)
  {
    ForkMaps(w, w1, k, cur, child);
    ForkSame(w, w1, k, cur, child, k, 0);
    forall q | 0 <= q < KSTACK_PAGE
      ensures Lookup(w1.space, k, q) == Lookup(w.space, k, q)
    {
      ForkSame(w, w1, k, cur, child, k, q);
    }
    forall f | Private(w1.space, f)
      ensures Private(w.space, f) || f !in w.used
    {
      ForkPrivate(w, w1, k, cur, child, f);
    }
    StateKept(w, w1, k, lo, b);
  }

  // ---------------------------------------------------------------- the end of an address space

  /** What `task_destroy` leaves before any of the kernel heap is given back. */
  function Gone(w: World, d: nat): World
    requires ShapeOk(w.space, d)
  {
    w.(space := Cleared(w.space, d))
  }

  lemma DestroySame(w0: World, w: World, d: nat, e: nat, q: int)
    requires w in Torn(w0, d, PAGES) && e in w0.space.dirs && e != d && 0 <= q < PAGES
    ensures var u := Gone(w, d).space;
            e in u.dirs && ShapeOk(u, e) && ShapeOk(w0.space, e) && Lookup(u, e, q) == Lookup(w0.space, e, q)
  {
    ClearKeeps(w.space, d, 1024);
    assert Lookup(Cleared(w.space, d), e, q) == Lookup(w.space, e, q);
    assert Lookup(w.space, e, q) == Lookup(w0.space, e, q);
  }

  lemma DestroyMaps(w0: World, w: World, d: nat, k: nat)
    requires KernelMaps(w0.space, k) && w in Torn(w0, d, PAGES) && d in w0.space.dirs && d != k
    ensures KernelMaps(Gone(w, d).space, k)
  {
    ClearKeeps(w.space, d, 1024);
    DestroyLinked(w0, w, k, d);
    DestroySame(w0, w, d, k, 0);
    assert KeepsTables(w0.space, w.space, k);
  }

  lemma DestroyFrames(w0: World, w: World, d: nat)
    requires w in Torn(w0, d, PAGES) && Valid(Gone(w, d).space)
    ensures FramesRespected(w0, Gone(w, d))
  {
    var u := Gone(w, d);
    forall f | f in w0.used && !Private(w0.space, f)
      ensures f in u.used
    {
      assert !BacksBelow(w0.space, d, f, PAGES);
    }
    forall f | Private(u.space, f)
      ensures Private(w0.space, f)
    {
      var e, q :| e in u.space.dirs && KSTACK_PAGE <= q < PAGES && Has(u.space, e, q) && FrameOf(u.space, e, q) == f;
      DestroySame(w0, w, d, e, q);
      assert FrameOf(w0.space, e, q) == f;
    }
  }

  /** The kernel heap is whole when a task's memory is gone. */
  lemma DestroyKept(w0: World, w: World, d: nat, k: nat, lo: int, b: int)
    requires HeapState(w0, k, lo, b) && w in Torn(w0, d, PAGES) && d in w0.space.dirs && d != k
    ensures HeapState(Gone(w, d), k, lo, b)
  {
    DestroyMaps(w0, w, d, k);
    DestroyFrames(w0, w, d);
    DestroySame(w0, w, d, k, 0);
    forall q | 0 <= q < KSTACK_PAGE
      ensures Lookup(Gone(w, d).space, k, q) == Lookup(w0.space, k, q)
    {
      DestroySame(w0, w, d, k, q);
    }
    StateKept(w0, Gone(w, d), k, lo, b);
  }
}
