/** The kernel break of kernel/src/mm/kvm.c: which pages and frames a rise takes and a fall gives back.

    A fall is written for the page above the last one: `kvm_page_free` works on the page at the break.  When that page is
    absent, the frame it frees is frame 0. */
module PagingBreak {
  import opened PagingSpec
  import opened PagingClone
  import opened PagingKernel
  import opened PagingHeap

  // ---------------------------------------------------------------- pages of the kernel

  /** All address spaces share the kernel tables of k, and k has the table of the kernel stack. */
  ghost predicate KernelMaps(s: Space, k: nat) {
    Valid(s) && Linked(s, k) && ShapeOk(s, k) && s.dirs[k].tables[SHARED] != 0
  }

  /** A page below the kernel stack is everybody's, the first page of the stack is one for each address space. */
  predicate Touches(k: nat, p: int, e: nat, q: int) { q == p && (p < KSTACK_PAGE || e == k) }

  lemma TreeLinked(s0: Space, s: Space, k: nat)
    requires KernelMaps(s0, k) && Valid(s) && SameTree(s0, s)
    ensures KernelMaps(s, k)
  {
    assert KeepsTables(s0, s, k) && ShapeOk(s, k);
    forall e | e in s.dirs
      ensures KernelKept(s0, s, e)
    {
      assert KeepsTables(s0, s, e) && ShapeOk(s0, e) && ShapeOk(s, e);
    }
    AllLinked(s0, s, k);
  }

  /** Page p of the kernel has the given entry and nothing else has changed. */
  ghost predicate OnePage(s: Space, u: Space, k: nat, p: int, entry: Entry) {
    && k in s.dirs && ShapeOk(s, k) && Valid(u) && SameTree(s, u) && 0 <= p <= KSTACK_PAGE
    && forall e, q {:trigger PageAt(s, u, k, p, entry, e, q)} {:trigger Lookup(u, e, q)} ::
         e in s.dirs && 0 <= q < PAGES ==> PageAt(s, u, k, p, entry, e, q)
  }

  ghost predicate PageAt(s: Space, u: Space, k: nat, p: int, entry: Entry, e: nat, q: int)
    requires 0 <= q < PAGES
  {
    ShapeOk(u, e) && ShapeOk(s, e) && Lookup(u, e, q) == if Touches(k, p, e, q) then entry else Lookup(s, e, q)
  }

  /** Mapping a page of the kernel makes no table. */
  lemma BreakTree(s: Space, k: nat, p: int, frame: nat, flags: bv32, at: nat)
    requires KernelMaps(s, k) && 0 <= p <= KSTACK_PAGE && at != 0 && at !in s.tabs
    ensures SameTree(s, Mapped(s, k, p, frame, flags, at)) && KernelMaps(Mapped(s, k, p, frame, flags, at), k)
  {
    BreakTable(s, k, p);
    SameTables(s, k, p, frame, flags, at);
    MapValid(s, k, MapCall(p, frame, flags, at));
    TreeLinked(s, Mapped(s, k, p, frame, flags, at), k);
  }

  lemma BreakTable(s: Space, k: nat, p: int)
    requires KernelMaps(s, k) && 0 <= p <= KSTACK_PAGE
    ensures s.dirs[k].tables[p / 1024] != 0
    ensures forall e {:trigger s.dirs[e]} :: e in s.dirs && p < KSTACK_PAGE ==>
              ShapeOk(s, e) && s.dirs[e].tables[p / 1024] == s.dirs[k].tables[p / 1024]
  {
    assert p < KSTACK_PAGE ==> p / 1024 < SHARED;
    assert LinkedTo(s, k, k);
    forall e | e in s.dirs && p < KSTACK_PAGE
      ensures ShapeOk(s, e) && s.dirs[e].tables[p / 1024] == s.dirs[k].tables[p / 1024]
    {
      assert LinkedTo(s, k, e);
    }
  }

  lemma BreakLookup(s: Space, k: nat, p: int, frame: nat, flags: bv32, at: nat, e: nat, q: int)
    requires KernelMaps(s, k) && 0 <= p <= KSTACK_PAGE && at != 0 && at !in s.tabs && e in s.dirs && 0 <= q < PAGES
    ensures PageAt(s, Mapped(s, k, p, frame, flags, at), k, p, Entry(flags & ENTRY_FLAGS, frame), e, q)
  {
    BreakTable(s, k, p);
    MapRefines(s, k, p, frame, flags, at, e, q);
    assert e != k && q == p == KSTACK_PAGE ==> !SamePlace(s, k, p, e, q);
    assert q == p < KSTACK_PAGE ==> SamePlace(s, k, p, e, q);
  }

  /** `page_map` at the break changes that page in every address space, or only in this one when it is a page of the
      stack. */
  lemma BreakMap(s: Space, k: nat, p: int, frame: nat, flags: bv32, at: nat, entry: Entry)
    requires KernelMaps(s, k) && 0 <= p <= KSTACK_PAGE && at != 0 && at !in s.tabs && entry == Entry(flags & ENTRY_FLAGS, frame)
    ensures OnePage(s, Mapped(s, k, p, frame, flags, at), k, p, entry)
  {
    BreakTree(s, k, p, frame, flags, at);
    forall e, q | e in s.dirs && 0 <= q < PAGES
      ensures PageAt(s, Mapped(s, k, p, frame, flags, at), k, p, entry, e, q)
    {
      BreakLookup(s, k, p, frame, flags, at, e, q);
    }
  }

  // ---------------------------------------------------------------- who has a frame

  /** Frame f backs a page from the kernel stack up of some address space. */
  ghost predicate Private(s: Space, f: nat)
    requires Shaped(s)
  {
    exists d, q {:trigger FrameOf(s, d, q)} :: d in s.dirs && KSTACK_PAGE <= q < PAGES && Has(s, d, q) && FrameOf(s, d, q) == f
  }

  /** Every page of the kernel heap, from page lo up, has a frame in use that backs no other page of the kernel heap and
      no private page. */
  ghost predicate HeapOwned(w: World, k: nat, lo: int) {
    && Shaped(w.space) && k in w.space.dirs && 0 <= lo
    && (forall q {:trigger Has(w.space, k, q)} :: lo <= q < KSTACK_PAGE && Has(w.space, k, q) ==>
          FrameOf(w.space, k, q) in w.used && !Private(w.space, FrameOf(w.space, k, q)))
    && (forall q, r {:trigger FrameOf(w.space, k, q), FrameOf(w.space, k, r)}
          | lo <= q < r < KSTACK_PAGE && Has(w.space, k, q) && Has(w.space, k, r) ::
          FrameOf(w.space, k, q) != FrameOf(w.space, k, r))
  }

  /** The pages of the kernel heap are there and none above the break; nothing is said of the page at the break. */
  ghost predicate HeapThere(s: Space, k: nat, lo: int, b: int) {
    && k in s.dirs && ShapeOk(s, k) && 1 <= lo <= b <= KSTACK_PAGE
    && (forall q {:trigger Has(s, k, q)} :: lo <= q < b ==> Has(s, k, q))
    && (forall q {:trigger Has(s, k, q)} :: b < q < KSTACK_PAGE ==> !Has(s, k, q))
  }

  /** Nobody loses a frame: all ownership, private and of the kernel heap. */
  ghost predicate AllOwned(w: World, k: nat, lo: int) { Exclusive(w) && HeapOwned(w, k, lo) }

  /** Frame that `get_phys` names for page q: 0 when it is absent. */
  function BreakFrame(s: Space, k: nat, q: int): nat
    requires ShapeOk(s, k) && 0 <= q < PAGES
  {
    if Has(s, k, q) then FrameOf(s, k, q) else 0
  }

  // ---------------------------------------------------------------- falling

  /** `kvm_page_free` with the break at page p. */
  ghost function Fell(w: World, k: nat, p: int): iset<World> {
    iset u: World |
      OnePage(w.space, u.space, k, p, NO_ENTRY) && u.used == w.used - {BreakFrame(w.space, k, p)} && u.mem == w.mem
  }

  /** Working n pages from page b frees frame f. */
  ghost predicate FreedBy(s: Space, k: nat, b: int, n: nat, f: nat)
    requires ShapeOk(s, k) && b < PAGES && -1 <= b - n
  {
    exists q {:trigger BreakFrame(s, k, q)} :: b - n < q <= b && BreakFrame(s, k, q) == f
  }

  /** Page q of e after a fall of n pages from page b. */
  function FallenEntry(s: Space, k: nat, b: int, n: nat, e: nat, q: int): Entry
    requires ShapeOk(s, e) && 0 <= q < PAGES
  {
    if b - n < q <= b && Touches(k, q, e, q) then NO_ENTRY else Lookup(s, e, q)
  }

  /** Every page of every address space, after a fall. */
  ghost predicate FallenPages(w0: World, w: World, k: nat, b: int, n: nat) {
    forall e, q {:trigger FallenAt(w0, w, k, b, n, e, q)} {:trigger Lookup(w.space, e, q)} ::
      e in w0.space.dirs && 0 <= q < PAGES ==> FallenAt(w0, w, k, b, n, e, q)
  }

  ghost predicate FallenAt(w0: World, w: World, k: nat, b: int, n: nat, e: nat, q: int)
    requires 0 <= q < PAGES
  {
    ShapeOk(w.space, e) && ShapeOk(w0.space, e) && Lookup(w.space, e, q) == FallenEntry(w0.space, k, b, n, e, q)
  }

  /** The break has fallen n pages from page b: pages b - n + 1 .. b are gone and the frames they had are free, frame 0
      standing for the frame of an absent page.  Page b - n, the first above the new break, is left mapped. */
  ghost function Fallen(w0: World, k: nat, b: int, n: nat): iset<World> {
    iset w: World |
      && Valid(w.space) && SameTree(w0.space, w.space) && k in w0.space.dirs && ShapeOk(w0.space, k) && w.mem == w0.mem
      && 0 <= b - n && b <= KSTACK_PAGE && FallenPages(w0, w, k, b, n)
      && forall f {:trigger f in w.used} :: f in w.used <==> f in w0.used && !FreedBy(w0.space, k, b, n, f)
  }

  lemma NotFallen(w: World, k: nat, b: int)
    requires KernelMaps(w.space, k) && 0 <= b <= KSTACK_PAGE
    ensures w in Fallen(w, k, b, 0)
  {
    forall e | e in w.space.dirs
      ensures ShapeOk(w.space, e) && KeepsTables(w.space, w.space, e)
    {
    }
  }

  lemma FallFrames(w0: World, w: World, u: World, k: nat, b: int, n: nat)
    requires w in Fallen(w0, k, b, n) && n < b && u in Fell(w, k, b - n)
    ensures forall f :: f in u.used <==> f in w0.used && !FreedBy(w0.space, k, b, n + 1, f)
  {
    assert Lookup(w.space, k, b - n) == FallenEntry(w0.space, k, b, n, k, b - n) == Lookup(w0.space, k, b - n);
    var g := BreakFrame(w.space, k, b - n);
    assert BreakFrame(w0.space, k, b - n) == g;
    forall f: nat
      ensures FreedBy(w0.space, k, b, n + 1, f) <==> f == g || FreedBy(w0.space, k, b, n, f)
    {
      OneMoreFreed(w0.space, k, b, n, f);
    }
  }

  lemma OneMoreFreed(s: Space, k: nat, b: int, n: nat, f: nat)
    requires ShapeOk(s, k) && b < PAGES && n < b
    ensures FreedBy(s, k, b, n + 1, f) <==> f == BreakFrame(s, k, b - n) || FreedBy(s, k, b, n, f)
  {
    if FreedBy(s, k, b, n + 1, f) {
      var q :| b - (n + 1) < q <= b && BreakFrame(s, k, q) == f;
      assert q == b - n || b - n < q;
    }
  }

  lemma FallAll(w0: World, w: World, u: World, k: nat, b: int, n: nat, m: nat)
    requires w in Fallen(w0, k, b, n) && m == n + 1 <= b && u in Fell(w, k, b - n)
    ensures FallenPages(w0, u, k, b, m)
  {
    forall e, q | e in w0.space.dirs && 0 <= q < PAGES
      ensures FallenAt(w0, u, k, b, m, e, q)
    {
      assert FallenAt(w0, w, k, b, n, e, q) && PageAt(w.space, u.space, k, b - n, NO_ENTRY, e, q);
    }
  }

  /** One page more. */
  lemma FallStep(w0: World, w: World, u: World, k: nat, b: int, n: nat, m: nat, p: int)
    requires w in Fallen(w0, k, b, n) && m == n + 1 && p == b - n > 0 && u in Fell(w, k, p)
    ensures u in Fallen(w0, k, b, m)
  {
    FallFrames(w0, w, u, k, b, n);
    TreeTwice(w0.space, w.space, u.space);
    FallAll(w0, w, u, k, b, n, m);
  }

  /** Two falls are one. */
  lemma FallTwice(w0: World, w1: World, w2: World, k: nat, b: int, n: nat, p: int, m: nat, total: nat)
    requires w1 in Fallen(w0, k, b, n) && p == b - n && total == n + m && w2 in Fallen(w1, k, p, m)
    ensures w2 in Fallen(w0, k, b, total)
  {
    TreeTwice(w0.space, w1.space, w2.space);
    forall e, q | e in w0.space.dirs && 0 <= q < PAGES
      ensures FallenAt(w0, w2, k, b, total, e, q)
    {
      assert FallenAt(w1, w2, k, p, m, e, q) && FallenAt(w0, w1, k, b, n, e, q);
    }
    forall f: nat
      ensures f in w2.used <==> f in w0.used && !FreedBy(w0.space, k, b, total, f)
    {
      FreedTwice(w0, w1, k, b, n, p, m, total, f);
    }
  }

  lemma FreedTwice(w0: World, w1: World, k: nat, b: int, n: nat, p: int, m: nat, total: nat, f: nat)
    requires w1 in Fallen(w0, k, b, n) && p == b - n && 0 <= p - m && total == n + m
    ensures ShapeOk(w0.space, k) && ShapeOk(w1.space, k)
    ensures FreedBy(w0.space, k, b, total, f) <==> FreedBy(w0.space, k, b, n, f) || FreedBy(w1.space, k, p, m, f)
  {
    forall q | 0 <= q <= p
      ensures BreakFrame(w1.space, k, q) == BreakFrame(w0.space, k, q)
    {
      assert FallenAt(w0, w1, k, b, n, k, q);
    }
    if FreedBy(w0.space, k, b, total, f) {
      var q :| b - total < q <= b && BreakFrame(w0.space, k, q) == f;
      assert q <= p ==> BreakFrame(w1.space, k, q) == f;
    }
    if FreedBy(w1.space, k, p, m, f) {
      var q :| p - m < q <= p && BreakFrame(w1.space, k, q) == f;
      assert BreakFrame(w0.space, k, q) == f;
    }
  }

  /** The heap that is left ends at the new break, and after a fall the page there is mapped. */
  lemma FallHeap(w0: World, w: World, k: nat, lo: int, b: int, n: nat)
    requires w in Fallen(w0, k, b, n) && HeapThere(w0.space, k, lo, b) && lo <= b - n
    ensures HeapThere(w.space, k, lo, b - n) && (n > 0 ==> Has(w.space, k, b - n))
  {
    NoFlags();
    forall q | lo <= q < KSTACK_PAGE
      ensures q < b - n ==> Has(w.space, k, q)
      ensures b - n < q ==> !Has(w.space, k, q)
      ensures q == b - n && n > 0 ==> Has(w.space, k, q)
    {
      assert Lookup(w.space, k, q) == FallenEntry(w0.space, k, b, n, k, q);
      assert q < b ==> Has(w0.space, k, q);
      assert q > b ==> !Has(w0.space, k, q);
    }
  }

  /** The break can move: every frame a fall may free is one of the bitmap's. */
  ghost predicate Movable(s: Space, k: nat, lo: int, b: int) {
    && KernelMaps(s, k) && HeapThere(s, k, lo, b)
    && forall q {:trigger Has(s, k, q)} :: lo <= q <= KSTACK_PAGE && Has(s, k, q) ==> FrameOf(s, k, q) < FRAMES
  }

  /** The pictures in which the break can move. */
  ghost function Workable(k: nat, lo: int, b: int): iset<World> { iset w: World | Movable(w.space, k, lo, b) }

  lemma FallWorkable(w0: World, w: World, k: nat, lo: int, b: int, n: nat, p: int)
    requires w0 in Workable(k, lo, b) && w in Fallen(w0, k, b, n) && lo <= p == b - n
    ensures w in Workable(k, lo, p)
  {
    NoFlags();
    TreeLinked(w0.space, w.space, k);
    FallHeap(w0, w, k, lo, b, n);
    forall q | lo <= q <= KSTACK_PAGE && Has(w.space, k, q)
      ensures FrameOf(w.space, k, q) < FRAMES
    {
      assert FallenAt(w0, w, k, b, n, k, q);
      assert Has(w0.space, k, q);
    }
  }

  lemma FallStart(w: World, k: nat, lo: int, b: int)
    requires w in Workable(k, lo, b)
    ensures w in Fallen(w, k, b, 0)
  {
    NotFallen(w, k, b);
  }

  lemma FellWorkable(w: World, u: World, k: nat, lo: int, b: int, p: int)
    requires w in Workable(k, lo, b) && u in Fell(w, k, b) && lo <= p == b - 1
    ensures u in Workable(k, lo, p)
  {
    NotFallen(w, k, b);
    FallStep(w, w, u, k, b, 0, 1, b);
    FallWorkable(w, u, k, lo, b, 1, p);
  }

  /** A fall leaves user heaps alone. */
  lemma FallUserHeap(w0: World, w: World, k: nat, b: int, n: nat, d: nat, begin: int, end: int)
    requires w in Fallen(w0, k, b, n) && HeapPages(w0.space, d, begin, end)
    ensures HeapPages(w.space, d, begin, end)
  {
    assert FallenAt(w0, w, k, b, n, d, begin);
    forall q | begin <= q < USTACK_PAGE
      ensures Has(w.space, d, q) <==> q < end
    {
      assert FallenAt(w0, w, k, b, n, d, q);
      assert Has(w0.space, d, q) <==> q < end;
    }
  }

  /** The page at the break is absent: the break has not fallen since it last rose. */
  ghost predicate AbsentBreak(s: Space, k: nat, b: int) { k in s.dirs && ShapeOk(s, k) && 0 <= b < KSTACK_PAGE && !Has(s, k, b) }

  /** Falling from there gives frame 0 away. */
  lemma ZeroFreed(w0: World, w: World, k: nat, b: int, n: nat)
    requires w in Fallen(w0, k, b, n) && n > 0 && AbsentBreak(w0.space, k, b)
    ensures 0 !in w.used
  {
    assert BreakFrame(w0.space, k, b) == 0 && FreedBy(w0.space, k, b, n, 0);
  }

  /** A private page on frame 0 loses it then. */
  lemma ZeroLost(w0: World, w: World, k: nat, b: int, n: nat, d: nat, p: int)
    requires w in Fallen(w0, k, b, n) && n > 0 && AbsentBreak(w0.space, k, b) && d in w0.space.dirs && KSTACK_PAGE <= p < PAGES
    requires ShapeOk(w0.space, d) && Has(w0.space, d, p) && FrameOf(w0.space, d, p) == 0
    ensures ShapeOk(w.space, d) && Has(w.space, d, p) && FrameOf(w.space, d, p) == 0 && 0 !in w.used && !Exclusive(w)
  {
    ZeroFreed(w0, w, k, b, n);
    assert FallenAt(w0, w, k, b, n, d, p);
    assert Has(w.space, d, p) && FrameOf(w.space, d, p) == 0;
  }

  // ---------------------------------------------------------------- what a fall does to ownership

  /** A private page after a fall is one from before, with its frame. */
  lemma FallPrivate(w0: World, w: World, k: nat, b: int, n: nat, d: nat, q: int)
    requires w in Fallen(w0, k, b, n) && d in w.space.dirs && KSTACK_PAGE <= q < PAGES
    ensures ShapeOk(w.space, d) && ShapeOk(w0.space, d)
    ensures Has(w.space, d, q) <==> Has(w0.space, d, q) && !(n > 0 && d == k && q == b)
    ensures Has(w.space, d, q) ==> Lookup(w.space, d, q) == Lookup(w0.space, d, q)
  {
    NoFlags();
    assert Lookup(w.space, d, q) == FallenEntry(w0.space, k, b, n, d, q);
  }

  /** A fall frees the frame of a private page that stays only as frame 0, for an absent page at the break. */
  lemma FreedPrivate(w0: World, w: World, k: nat, lo: int, b: int, n: nat, d: nat, q: int)
    requires w in Fallen(w0, k, b, n) && AllOwned(w0, k, lo) && HeapThere(w0.space, k, lo, b) && lo <= b - n
    requires d in w.space.dirs && KSTACK_PAGE <= q < PAGES && ShapeOk(w.space, d) && Has(w.space, d, q)
    requires ShapeOk(w0.space, k) && FreedBy(w0.space, k, b, n, FrameOf(w.space, d, q))
    ensures FrameOf(w.space, d, q) == 0 && !Has(w0.space, k, b)
  {
    FallPrivate(w0, w, k, b, n, d, q);
    var f := FrameOf(w.space, d, q);
    assert FrameOf(w0.space, d, q) == f && Private(w0.space, f);
    var p :| b - n < p <= b && BreakFrame(w0.space, k, p) == f;
    var g := FrameOf(w0.space, k, p);
  }

  /** Private ownership survives a fall exactly when the page at the break is mapped or frame 0 backs no private page. */
  lemma FallExclusiveIff(w0: World, w: World, k: nat, lo: int, b: int, n: nat)
    requires w in Fallen(w0, k, b, n) && n > 0 && AllOwned(w0, k, lo) && HeapThere(w0.space, k, lo, b) && lo <= b - n
    ensures Exclusive(w) <==> Has(w0.space, k, b) || !Private(w0.space, 0)
  {
    if Has(w0.space, k, b) || !Private(w0.space, 0) {
      FallExclusive(w0, w, k, lo, b, n);
    } else {
      FallInexclusive(w0, w, k, b, n);
    }
  }

  lemma FallExclusive(w0: World, w: World, k: nat, lo: int, b: int, n: nat)
    requires w in Fallen(w0, k, b, n) && AllOwned(w0, k, lo) && HeapThere(w0.space, k, lo, b) && lo <= b - n
    requires n == 0 || Has(w0.space, k, b) || !Private(w0.space, 0)
    ensures Exclusive(w)
  {
    forall d, q | d in w.space.dirs && KSTACK_PAGE <= q < PAGES && Has(w.space, d, q)
      ensures FrameOf(w.space, d, q) in w.used
    {
      FallPrivate(w0, w, k, b, n, d, q);
      var f := FrameOf(w.space, d, q);
      assert Has(w0.space, d, q) && FrameOf(w0.space, d, q) == f && Private(w0.space, f);
      if FreedBy(w0.space, k, b, n, f) {
        FreedPrivate(w0, w, k, lo, b, n, d, q);
      }
    }
    forall d, q, e, r | d in w.space.dirs && e in w.space.dirs && KSTACK_PAGE <= q < PAGES && KSTACK_PAGE <= r < PAGES
        && Has(w.space, d, q) && Has(w.space, e, r) && FrameOf(w.space, d, q) == FrameOf(w.space, e, r)
      ensures d == e && q == r
    {
      FallPrivate(w0, w, k, b, n, d, q);
      FallPrivate(w0, w, k, b, n, e, r);
      assert FrameOf(w0.space, d, q) == FrameOf(w0.space, e, r);
    }
  }

  lemma FallInexclusive(w0: World, w: World, k: nat, b: int, n: nat)
    requires w in Fallen(w0, k, b, n) && n > 0 && Shaped(w0.space) && !Has(w0.space, k, b) && Private(w0.space, 0)
    ensures !Exclusive(w)
  {
    var d, q :| d in w0.space.dirs && KSTACK_PAGE <= q < PAGES && Has(w0.space, d, q) && FrameOf(w0.space, d, q) == 0;
    FallPrivate(w0, w, k, b, n, d, q);
    assert Has(w.space, d, q) && FrameOf(w.space, d, q) == 0;
    assert BreakFrame(w0.space, k, b) == 0 && FreedBy(w0.space, k, b, n, 0);
  }

  /** The break may fall n pages from page b without anybody losing a frame. */
  ghost predicate Safe(w: World, k: nat, lo: int, b: int, n: nat)
    requires HeapThere(w.space, k, lo, b) && Shaped(w.space) && lo <= b - n
  {
    || n == 0 || Has(w.space, k, b)
    || (!Private(w.space, 0) && forall q {:trigger FrameOf(w.space, k, q)} :: lo <= q <= b - n ==> FrameOf(w.space, k, q) != 0)
  }

  /** A page of the heap after a fall. */
  lemma FallHeapPage(w0: World, w: World, k: nat, lo: int, b: int, n: nat, q: int)
    requires w in Fallen(w0, k, b, n) && HeapThere(w0.space, k, lo, b) && lo <= b - n && lo <= q < KSTACK_PAGE
    ensures ShapeOk(w.space, k)
    ensures Has(w.space, k, q) ==> q <= b - n && Lookup(w.space, k, q) == Lookup(w0.space, k, q)
    ensures q <= b - n && (n > 0 || q < b || Has(w0.space, k, b)) ==> Has(w.space, k, q)
  {
    NoFlags();
    assert Lookup(w.space, k, q) == FallenEntry(w0.space, k, b, n, k, q);
    assert q < b ==> Has(w0.space, k, q);
    assert q > b ==> !Has(w0.space, k, q);
  }

  /** It loses its frame only as frame 0. */
  lemma FreedHeapPage(w0: World, w: World, k: nat, lo: int, b: int, n: nat, q: int)
    requires w in Fallen(w0, k, b, n) && AllOwned(w0, k, lo) && HeapThere(w0.space, k, lo, b) && lo <= b - n
    requires lo <= q < KSTACK_PAGE && ShapeOk(w.space, k) && Has(w.space, k, q)
    requires FreedBy(w0.space, k, b, n, FrameOf(w.space, k, q))
    ensures FrameOf(w.space, k, q) == 0 && !Has(w0.space, k, b)
  {
    FallHeapPage(w0, w, k, lo, b, n, q);
    var f := FrameOf(w.space, k, q);
    assert Has(w0.space, k, q) && FrameOf(w0.space, k, q) == f;
    var p :| b - n < p <= b && BreakFrame(w0.space, k, p) == f;
    var g := FrameOf(w0.space, k, p);
  }

  lemma PrivateKept(w0: World, w: World, k: nat, b: int, n: nat, f: nat)
    requires w in Fallen(w0, k, b, n) && Shaped(w0.space) && Private(w.space, f)
    ensures Private(w0.space, f)
  {
    var d, q :| d in w.space.dirs && KSTACK_PAGE <= q < PAGES && Has(w.space, d, q) && FrameOf(w.space, d, q) == f;
    FallPrivate(w0, w, k, b, n, d, q);
    assert FrameOf(w0.space, d, q) == f;
  }

  lemma FallHeapOwned(w0: World, w: World, k: nat, lo: int, b: int, n: nat)
    requires w in Fallen(w0, k, b, n) && AllOwned(w0, k, lo) && HeapThere(w0.space, k, lo, b) && lo <= b - n
    requires Safe(w0, k, lo, b, n)
    ensures HeapOwned(w, k, lo)
  {
    forall q | lo <= q < KSTACK_PAGE && ShapeOk(w.space, k) && Has(w.space, k, q)
      ensures FrameOf(w.space, k, q) in w.used && !Private(w.space, FrameOf(w.space, k, q))
    {
      FallHeapPage(w0, w, k, lo, b, n, q);
      var f := FrameOf(w.space, k, q);
      assert Has(w0.space, k, q) && FrameOf(w0.space, k, q) == f;
      if FreedBy(w0.space, k, b, n, f) {
        FreedHeapPage(w0, w, k, lo, b, n, q);
      }
      if Private(w.space, f) {
        PrivateKept(w0, w, k, b, n, f);
      }
    }
    forall q, r | lo <= q < r < KSTACK_PAGE && ShapeOk(w.space, k) && Has(w.space, k, q) && Has(w.space, k, r)
      ensures FrameOf(w.space, k, q) != FrameOf(w.space, k, r)
    {
      FallHeapPage(w0, w, k, lo, b, n, q);
      FallHeapPage(w0, w, k, lo, b, n, r);
      assert FrameOf(w0.space, k, q) != FrameOf(w0.space, k, r);
    }
  }

  /** All ownership survives a fall exactly when it is safe. */
  lemma FallOwnedIff(w0: World, w: World, k: nat, lo: int, b: int, n: nat)
    requires w in Fallen(w0, k, b, n) && AllOwned(w0, k, lo) && HeapThere(w0.space, k, lo, b) && lo <= b - n
    ensures AllOwned(w, k, lo) <==> Safe(w0, k, lo, b, n)
  {
    if Safe(w0, k, lo, b, n) {
      FallExclusive(w0, w, k, lo, b, n);
      FallHeapOwned(w0, w, k, lo, b, n);
    } else if Private(w0.space, 0) {
      FallInexclusive(w0, w, k, b, n);
    } else {
      var q :| lo <= q <= b - n && FrameOf(w0.space, k, q) == 0;
      FallHeapPage(w0, w, k, lo, b, n, q);
      assert Has(w.space, k, q) && FrameOf(w.space, k, q) == 0;
      assert BreakFrame(w0.space, k, b) == 0 && FreedBy(w0.space, k, b, n, 0);
    }
  }

  // ---------------------------------------------------------------- rising

  /** `kvm_page_alloc_zeroed` with the break at page p, given frame f. */
  ghost function Rose(w: World, k: nat, p: int, f: nat): iset<World> {
    iset u: World |
      && p < KSTACK_PAGE && OnePage(w.space, u.space, k, p, Entry(KERNEL_FLAGS, f))
      && f !in w.used && u.used == w.used + {f} && u.mem == w.mem[f := ZeroPage()]
  }

  /** Page q once pages b, b + 1, ... have the frames fs. */
  function RisenEntry(s: Space, b: int, fs: seq<nat>, e: nat, q: int): Entry
    requires ShapeOk(s, e) && 0 <= q < PAGES
  {
    if b <= q < b + |fs| then Entry(KERNEL_FLAGS, fs[q - b]) else Lookup(s, e, q)
  }

  /** The frames fs, each of them free before, have been taken and cleared. */
  ghost predicate FramesTaken(w0: World, w: World, fs: seq<nat>) {
    && (forall i, j :: 0 <= i < j < |fs| ==> fs[i] != fs[j])
    && (forall i :: 0 <= i < |fs| ==> fs[i] !in w0.used)
    && (forall f {:trigger f in w.used} :: f in w.used <==> f in w0.used || f in fs)
    && (forall f {:trigger f in w.mem} :: f in w.mem <==> f in w0.mem || f in fs)
    && (forall f {:trigger w.mem[f]} :: f in w.mem ==> w.mem[f] == if f in fs then ZeroPage() else w0.mem[f])
  }

  /** Every page of every address space, after a rise. */
  ghost predicate RisenPages(w0: World, w: World, b: int, fs: seq<nat>) {
    forall e, q {:trigger RisenAt(w0, w, b, fs, e, q)} {:trigger Lookup(w.space, e, q)} ::
      e in w0.space.dirs && 0 <= q < PAGES ==> RisenAt(w0, w, b, fs, e, q)
  }

  ghost predicate RisenAt(w0: World, w: World, b: int, fs: seq<nat>, e: nat, q: int)
    requires 0 <= q < PAGES
  {
    ShapeOk(w.space, e) && ShapeOk(w0.space, e) && Lookup(w.space, e, q) == RisenEntry(w0.space, b, fs, e, q)
  }

  /** The break has risen from page b: as many pages of zeros as fs has frames, each in a frame of its own that was free. */
  ghost function Risen(w0: World, k: nat, b: int, fs: seq<nat>): iset<World> {
    iset w: World |
      && Valid(w.space) && SameTree(w0.space, w.space) && k in w0.space.dirs && ShapeOk(w0.space, k)
      && 0 <= b && b + |fs| <= KSTACK_PAGE
      && RisenPages(w0, w, b, fs) && FramesTaken(w0, w, fs)
  }

  lemma NotRisen(w: World, k: nat, b: int)
    requires KernelMaps(w.space, k) && 0 <= b <= KSTACK_PAGE
    ensures w in Risen(w, k, b, [])
  {
    forall e | e in w.space.dirs
      ensures ShapeOk(w.space, e) && KeepsTables(w.space, w.space, e)
    {
    }
  }

  lemma TakeOne(w0: World, w: World, u: World, k: nat, p: int, fs: seq<nat>, f: nat, gs: seq<nat>)
    requires FramesTaken(w0, w, fs) && u in Rose(w, k, p, f) && gs == fs + [f]
    ensures FramesTaken(w0, u, gs)
  {
    assert forall i :: 0 <= i < |fs| ==> fs[i] in w.used;
    assert forall g :: g in gs <==> g in fs || g == f;
  }

  lemma RiseAll(w0: World, w: World, u: World, k: nat, b: int, fs: seq<nat>, f: nat, gs: seq<nat>)
    requires w in Risen(w0, k, b, fs) && u in Rose(w, k, b + |fs|, f) && gs == fs + [f]
    ensures RisenPages(w0, u, b, gs)
  {
    forall e, q | e in w0.space.dirs && 0 <= q < PAGES
      ensures RisenAt(w0, u, b, gs, e, q)
    {
      assert RisenAt(w0, w, b, fs, e, q) && PageAt(w.space, u.space, k, b + |fs|, Entry(KERNEL_FLAGS, f), e, q);
    }
  }

  /** One page more. */
  lemma RiseStep(w0: World, w: World, u: World, k: nat, b: int, fs: seq<nat>, f: nat, gs: seq<nat>, p: int)
    requires w in Risen(w0, k, b, fs) && p == b + |fs| && u in Rose(w, k, p, f) && gs == fs + [f]
    ensures u in Risen(w0, k, b, gs)
  {
    TakeOne(w0, w, u, k, b + |fs|, fs, f, gs);
    TreeTwice(w0.space, w.space, u.space);
    RiseAll(w0, w, u, k, b, fs, f, gs);
  }

  /** The heap ends at the new break; the page there is absent. */
  lemma RiseHeap(w0: World, w: World, k: nat, lo: int, b: int, fs: seq<nat>)
    requires w in Risen(w0, k, b, fs) && HeapThere(w0.space, k, lo, b)
    ensures HeapThere(w.space, k, lo, b + |fs|)
    ensures |fs| > 0 && b + |fs| < KSTACK_PAGE ==> !Has(w.space, k, b + |fs|)
  {
    KernelFlagBits();
    forall q | lo <= q < KSTACK_PAGE
      ensures q < b + |fs| ==> Has(w.space, k, q)
      ensures b + |fs| < q || (|fs| > 0 && q == b + |fs|) ==> !Has(w.space, k, q)
    {
      assert Lookup(w.space, k, q) == RisenEntry(w0.space, b, fs, k, q);
      assert q < b ==> Has(w0.space, k, q);
      assert q > b ==> !Has(w0.space, k, q);
    }
  }

  /** A rise touches no private page, and the page at the new break is absent. */
  lemma RisePage(w0: World, w: World, k: nat, lo: int, b: int, fs: seq<nat>, d: nat, p: int, c: int)
    requires w in Risen(w0, k, b, fs) && w0 in Workable(k, lo, b) && |fs| > 0 && c == b + |fs| < KSTACK_PAGE
    requires d in w0.space.dirs && KSTACK_PAGE <= p < PAGES && ShapeOk(w0.space, d)
    ensures d in w.space.dirs && ShapeOk(w.space, d) && Lookup(w.space, d, p) == Lookup(w0.space, d, p) && AbsentBreak(w.space, k, c)
  {
    RiseHeap(w0, w, k, lo, b, fs);
    assert RisenAt(w0, w, b, fs, d, p);
  }

  lemma RiseWorkable(w0: World, w: World, k: nat, lo: int, b: int, fs: seq<nat>, p: int)
    requires w0 in Workable(k, lo, b) && w in Risen(w0, k, b, fs) && p == b + |fs| && forall i :: 0 <= i < |fs| ==> fs[i] < FRAMES
    ensures w in Workable(k, lo, p)
  {
    TreeLinked(w0.space, w.space, k);
    RiseHeap(w0, w, k, lo, b, fs);
    forall q | lo <= q <= KSTACK_PAGE && Has(w.space, k, q)
      ensures FrameOf(w.space, k, q) < FRAMES
    {
      assert RisenAt(w0, w, b, fs, k, q);
      assert !(b <= q < b + |fs|) ==> Has(w0.space, k, q);
    }
  }

  lemma RiseStart(w: World, k: nat, lo: int, b: int)
    requires w in Workable(k, lo, b)
    ensures w in Risen(w, k, b, [])
  {
    NotRisen(w, k, b);
  }

  lemma RoseWorkable(w: World, u: World, k: nat, lo: int, b: int, f: nat, p: int)
    requires w in Workable(k, lo, b) && u in Rose(w, k, b, f) && f < FRAMES && p == b + 1
    ensures u in Workable(k, lo, p)
  {
    var fs := [f];
    NotRisen(w, k, b);
    RiseStep(w, w, u, k, b, [], f, fs, b);
    RiseWorkable(w, u, k, lo, b, fs, p);
  }

  lemma RisePrivate(w0: World, w: World, k: nat, b: int, fs: seq<nat>, f: nat)
    requires w in Risen(w0, k, b, fs) && Shaped(w0.space)
    ensures Private(w.space, f) <==> Private(w0.space, f)
  {
    if Private(w.space, f) {
      var d, q :| d in w.space.dirs && KSTACK_PAGE <= q < PAGES && Has(w.space, d, q) && FrameOf(w.space, d, q) == f;
      assert Lookup(w.space, d, q) == Lookup(w0.space, d, q);
      assert FrameOf(w0.space, d, q) == f && Has(w0.space, d, q);
    }
    if Private(w0.space, f) {
      var d, q :| d in w0.space.dirs && KSTACK_PAGE <= q < PAGES && Has(w0.space, d, q) && FrameOf(w0.space, d, q) == f;
      assert Lookup(w.space, d, q) == Lookup(w0.space, d, q);
      assert FrameOf(w.space, d, q) == f && Has(w.space, d, q);
    }
  }

  lemma RiseExclusive(w0: World, w: World, k: nat, b: int, fs: seq<nat>)
    requires w in Risen(w0, k, b, fs) && Exclusive(w0)
    ensures Exclusive(w)
  {
    forall d, q | d in w.space.dirs && KSTACK_PAGE <= q < PAGES && Has(w.space, d, q)
      ensures FrameOf(w.space, d, q) in w.used
    {
      assert Lookup(w.space, d, q) == Lookup(w0.space, d, q) && Has(w0.space, d, q);
    }
    forall d, q, e, r | d in w.space.dirs && e in w.space.dirs && KSTACK_PAGE <= q < PAGES && KSTACK_PAGE <= r < PAGES
        && Has(w.space, d, q) && Has(w.space, e, r) && FrameOf(w.space, d, q) == FrameOf(w.space, e, r)
      ensures d == e && q == r
    {
      assert Lookup(w.space, d, q) == Lookup(w0.space, d, q) && Lookup(w.space, e, r) == Lookup(w0.space, e, r);
      assert FrameOf(w0.space, d, q) == FrameOf(w0.space, e, r);
    }
  }

  /** A heap page after a rise has a fresh frame, or the one it had. */
  lemma RiseHeapPage(w0: World, w: World, k: nat, lo: int, b: int, fs: seq<nat>, q: int)
    requires w in Risen(w0, k, b, fs) && AllOwned(w0, k, lo) && lo <= q < KSTACK_PAGE && ShapeOk(w.space, k) && Has(w.space, k, q)
    ensures ShapeOk(w0.space, k)
    ensures var f := FrameOf(w.space, k, q);
            && f in w.used && !Private(w.space, f)
            && if b <= q < b + |fs| then f == fs[q - b] && f !in w0.used
               else Has(w0.space, k, q) && f == FrameOf(w0.space, k, q) && f in w0.used
  {
    assert Lookup(w.space, k, q) == RisenEntry(w0.space, b, fs, k, q);
    var f := FrameOf(w.space, k, q);
    RisePrivate(w0, w, k, b, fs, f);
    assert !(b <= q < b + |fs|) ==> Has(w0.space, k, q) && FrameOf(w0.space, k, q) == f;
  }

  /** Nobody loses a frame when the break rises. */
  lemma RiseOwned(w0: World, w: World, k: nat, lo: int, b: int, fs: seq<nat>)
    requires w in Risen(w0, k, b, fs) && AllOwned(w0, k, lo)
    ensures AllOwned(w, k, lo)
  {
    RiseExclusive(w0, w, k, b, fs);
    forall q | lo <= q < KSTACK_PAGE && ShapeOk(w.space, k) && Has(w.space, k, q)
      ensures FrameOf(w.space, k, q) in w.used && !Private(w.space, FrameOf(w.space, k, q))
    {
      RiseHeapPage(w0, w, k, lo, b, fs, q);
    }
    forall q, r | lo <= q < r < KSTACK_PAGE && ShapeOk(w.space, k) && Has(w.space, k, q) && Has(w.space, k, r)
      ensures FrameOf(w.space, k, q) != FrameOf(w.space, k, r)
    {
      RiseHeapPage(w0, w, k, lo, b, fs, q);
      RiseHeapPage(w0, w, k, lo, b, fs, r);
    }
  }

  /** The pages a fall goes through after a rise. */
  lemma RisenFrames(w0: World, w1: World, k: nat, b: int, fs: seq<nat>, q: int)
    requires w1 in Risen(w0, k, b, fs) && b <= q <= b + |fs|
    ensures ShapeOk(w0.space, k) && ShapeOk(w1.space, k)
    ensures BreakFrame(w1.space, k, q) == if q < b + |fs| then fs[q - b] else BreakFrame(w0.space, k, q)
  {
    KernelFlagBits();
    assert Lookup(w1.space, k, q) == RisenEntry(w0.space, b, fs, k, q);
  }

  lemma FreedAfterRise(w0: World, w1: World, k: nat, b: int, fs: seq<nat>, f: nat)
    requires |fs| > 0 && w1 in Risen(w0, k, b, fs) && ShapeOk(w0.space, k) && ShapeOk(w1.space, k)
    ensures FreedBy(w1.space, k, b + |fs|, |fs|, f) ==> f == BreakFrame(w0.space, k, b + |fs|) || f in fs[1..]
  {
    var n := |fs|;
    if FreedBy(w1.space, k, b + n, n, f) {
      var q :| b < q <= b + n && BreakFrame(w1.space, k, q) == f;
      RisenFrames(w0, w1, k, b, fs, q);
      assert q < b + n ==> fs[q - b] == fs[1..][q - b - 1];
    }
  }

  lemma RiseFreed(w0: World, w1: World, k: nat, b: int, fs: seq<nat>, f: nat)
    requires |fs| > 0 && w1 in Risen(w0, k, b, fs) && ShapeOk(w0.space, k) && ShapeOk(w1.space, k)
    requires f == BreakFrame(w0.space, k, b + |fs|) || f in fs[1..]
    ensures FreedBy(w1.space, k, b + |fs|, |fs|, f)
  {
    var n := |fs|;
    var i: nat :| 1 <= i <= n && f == if i == n then BreakFrame(w0.space, k, b + n) else fs[i];
    RisenFrames(w0, w1, k, b, fs, b + i);
    assert BreakFrame(w1.space, k, b + i) == f;
  }

  /** A rise and a fall of as many pages do not cancel: the frame named by the page above the risen heap is freed as well,
      and the frame of the first page taken stays in use, with that page mapped at the break. */
  lemma RiseThenFall(w0: World, w1: World, w2: World, k: nat, b: int, fs: seq<nat>, f: nat)
    requires |fs| > 0 && w1 in Risen(w0, k, b, fs) && w2 in Fallen(w1, k, b + |fs|, |fs|)
    ensures ShapeOk(w0.space, k) && ShapeOk(w2.space, k) && Lookup(w2.space, k, b) == Entry(KERNEL_FLAGS, fs[0])
    ensures f in w2.used <==> f != BreakFrame(w0.space, k, b + |fs|) && (f in w0.used || f == fs[0])
  {
    var n := |fs|;
    assert ShapeOk(w0.space, k) && ShapeOk(w1.space, k);
    FreedAfterRise(w0, w1, k, b, fs, f);
    if f == BreakFrame(w0.space, k, b + n) || f in fs[1..] {
      RiseFreed(w0, w1, k, b, fs, f);
    }
    assert Lookup(w2.space, k, b) == FallenEntry(w1.space, k, b + n, n, k, b) == Lookup(w1.space, k, b);
    assert Lookup(w1.space, k, b) == RisenEntry(w0.space, b, fs, k, b);
    assert f in fs <==> f == fs[0] || f in fs[1..];
    assert f in fs[1..] ==> f != fs[0] && f !in w0.used;
  }
}
