/** The user heap of kernel/src/mm/uvm.c: what growing and shrinking it does to pages and frames. */
module PagingHeap {
  import opened Layout
  import opened PagingSpec
  import opened PagingClone

  const UMEM_PAGE: int := 0x1_0000
  const USTACK_PAGE: int := 0xF_FC00
  const USER_FLAGS: bv32 := PF_PRES | PF_RW | PF_USER

  function ZeroPage(): Page { seq(4096, _ => 0) }

  /** Between the heap's first page and the stack, exactly the pages below the heap's end are present. */
  ghost predicate HeapPages(s: Space, d: nat, begin: int, end: int) {
    && d in s.dirs && ShapeOk(s, d) && UMEM_PAGE <= begin <= end <= USTACK_PAGE
    && forall q {:trigger Has(s, d, q)} :: begin <= q < USTACK_PAGE ==> (Has(s, d, q) <==> q < end)
  }

  /** Nothing but pages a .. b-1 of d has another entry than before. */
  ghost predicate OnlyThese(s0: Space, s: Space, d: nat, a: int, b: int) {
    && Shaped(s0) && Shaped(s) && s.dirs.Keys == s0.dirs.Keys
    && forall e, q {:trigger Lookup(s, e, q)} :: e in s.dirs && KSTACK_PAGE <= q < PAGES && !(e == d && a <= q < b) ==>
         Lookup(s, e, q) == Lookup(s0, e, q)
  }

  ghost predicate BacksIn(s: Space, d: nat, f: nat, a: int, b: int)
    requires ShapeOk(s, d) && 0 <= a && b <= PAGES
  {
    exists q {:trigger FrameOf(s, d, q)} :: a <= q < b && FrameOf(s, d, q) == f
  }

  /** Page q is a user page of zeros in a frame that was free. */
  ghost predicate FreshPage(w0: World, w: World, d: nat, q: int)
    requires ShapeOk(w.space, d) && 0 <= q < PAGES
  {
    var f := FrameOf(w.space, d, q);
    Lookup(w.space, d, q).flags == USER_FLAGS && f !in w0.used && f in w.used && f in w.mem && w.mem[f] == ZeroPage()
  }

  /** Pages a .. b-1 were added: zeroed, user-writable, in frames that were free, and those are all the frames taken. */
  ghost function Grown(w0: World, d: nat, a: int, b: int): iset<World> {
    iset w: World |
      && Valid(w0.space) && Valid(w.space) && d in w.space.dirs && ShapeOk(w.space, d) && UMEM_PAGE <= a <= b <= USTACK_PAGE
      && OnlyThese(w0.space, w.space, d, a, b) && OldFramesKept(w0, w)
      && (forall q {:trigger FreshPage(w0, w, d, q)} :: a <= q < b ==> FreshPage(w0, w, d, q))
      && forall f {:trigger BacksIn(w.space, d, f, a, b)} :: f in w.used && f !in w0.used ==> BacksIn(w.space, d, f, a, b)
  }

  /** Pages a .. b-1 were removed and exactly their frames freed. */
  ghost function Shrunk(w0: World, d: nat, a: int, b: int): iset<World> {
    iset w: World |
      && Valid(w0.space) && Valid(w.space) && d in w.space.dirs && ShapeOk(w.space, d) && ShapeOk(w0.space, d)
      && UMEM_PAGE <= a <= b <= USTACK_PAGE
      && OnlyThese(w0.space, w.space, d, a, b) && w.mem == w0.mem
      && (forall q {:trigger Lookup(w.space, d, q)} :: a <= q < b ==> Lookup(w.space, d, q) == NO_ENTRY)
      && forall f {:trigger f in w.used} :: f in w.used <==> f in w0.used && !BacksIn(w0.space, d, f, a, b)
  }

  lemma NothingYet(w: World, d: nat, a: int)
    requires Valid(w.space) && d in w.space.dirs && UMEM_PAGE <= a <= USTACK_PAGE
    ensures w in Grown(w, d, a, a) && w in Shrunk(w, d, a, a)
  {
    assert ShapeOk(w.space, d);
  }

  lemma UserFlagBits()
    ensures USER_FLAGS & ENTRY_FLAGS == USER_FLAGS && USER_FLAGS & PF_PRES != 0
  {
  }

  // ---------------------------------------------------------------- one page

  /** A user page of zeros has been added, in frame f, which was free. */
  ghost function Added(w: World, d: nat, p: int, f: nat): iset<World> {
    iset u: World |
      && PageSet(w.space, u.space, d, p, Entry(USER_FLAGS, f))
      && f !in w.used && u.used == w.used + {f} && u.mem == w.mem[f := ZeroPage()]
  }

  lemma PageAdded(w: World, d: nat, p: int, f: nat, at: nat)
    requires Valid(w.space) && d in w.space.dirs && KSTACK_PAGE <= p < PAGES && at != 0 && at !in w.space.tabs && f !in w.used
    ensures AddPage(w, d, p, f, USER_FLAGS, at, ZeroPage()) in Added(w, d, p, f)
  {
    UserFlagBits();
    var u, entry := AddPage(w, d, p, f, USER_FLAGS, at, ZeroPage()), Entry(USER_FLAGS, f);
    AddLookup(w, d, p, f, USER_FLAGS, at, ZeroPage(), d, p);
    forall e, q | e in w.space.dirs && 0 <= q < PAGES
      ensures SetAt(w.space, u.space, d, p, entry, e, q)
    {
      AddLookup(w, d, p, f, USER_FLAGS, at, ZeroPage(), e, q);
    }
  }

  // ---------------------------------------------------------------- one more page

  lemma GrowOnly(w0: World, w: World, u: World, d: nat, a: int, b: int, f: nat)
    requires w in Grown(w0, d, a, b) && b < USTACK_PAGE && u in Added(w, d, b, f)
    ensures OnlyThese(w0.space, u.space, d, a, b + 1)
  {
    var entry := Entry(USER_FLAGS, f);
    forall e, q | e in u.space.dirs && KSTACK_PAGE <= q < PAGES && !(e == d && a <= q < b + 1)
      ensures Lookup(u.space, e, q) == Lookup(w0.space, e, q)
    {
      assert SetAt(w.space, u.space, d, b, entry, e, q);
      assert Lookup(w.space, e, q) == Lookup(w0.space, e, q);
    }
  }

  lemma GrowFresh(w0: World, w: World, u: World, d: nat, a: int, b: int, f: nat, q: int)
    requires w in Grown(w0, d, a, b) && b < USTACK_PAGE && u in Added(w, d, b, f) && a <= q <= b
    ensures ShapeOk(u.space, d) && FreshPage(w0, u, d, q)
    ensures FrameOf(u.space, d, q) == if q == b then f else FrameOf(w.space, d, q)
  {
    assert SetAt(w.space, u.space, d, b, Entry(USER_FLAGS, f), d, q);
    if q < b {
      assert FreshPage(w0, w, d, q);
    }
  }

  lemma GrowBacks(w0: World, w: World, u: World, d: nat, a: int, b: int, f: nat, g: nat)
    requires w in Grown(w0, d, a, b) && b < USTACK_PAGE && u in Added(w, d, b, f) && g in u.used && g !in w0.used
    ensures ShapeOk(u.space, d) && BacksIn(u.space, d, g, a, b + 1)
  {
    if g == f {
      GrowFresh(w0, w, u, d, a, b, f, b);
      assert FrameOf(u.space, d, b) == g;
    } else {
      assert BacksIn(w.space, d, g, a, b);
      var q :| a <= q < b && FrameOf(w.space, d, q) == g;
      GrowFresh(w0, w, u, d, a, b, f, q);
      assert FrameOf(u.space, d, q) == g;
    }
  }

  lemma GrowStep(w0: World, w: World, u: World, d: nat, a: int, b: int, f: nat, c: int)
    requires w in Grown(w0, d, a, b) && b < USTACK_PAGE && u in Added(w, d, b, f) && c == b + 1
    ensures u in Grown(w0, d, a, c)
  {
    GrowOnly(w0, w, u, d, a, b, f);
    forall q | a <= q < c
      ensures ShapeOk(u.space, d) && FreshPage(w0, u, d, q)
    {
      GrowFresh(w0, w, u, d, a, b, f, q);
    }
    forall g | g in u.used && g !in w0.used
      ensures ShapeOk(u.space, d) && BacksIn(u.space, d, g, a, c)
    {
      GrowBacks(w0, w, u, d, a, b, f, g);
    }
    GrowFresh(w0, w, u, d, a, b, f, b);
  }

  lemma GrowHeapPages(w: World, u: World, d: nat, begin: int, end: int, f: nat)
    requires HeapPages(w.space, d, begin, end) && end < USTACK_PAGE && u in Added(w, d, end, f)
    ensures HeapPages(u.space, d, begin, end + 1)
  {
    UserFlagBits();
    var entry := Entry(USER_FLAGS, f);
    assert SetAt(w.space, u.space, d, end, entry, d, end);
    forall q | begin <= q < USTACK_PAGE
      ensures Has(u.space, d, q) <==> q < end + 1
    {
      assert SetAt(w.space, u.space, d, end, entry, d, q);
      assert Has(w.space, d, q) <==> q < end;
    }
  }

  // ---------------------------------------------------------------- one page less

  lemma ShrinkOnly(w0: World, w: World, u: World, d: nat, a: int, b: int)
    requires w in Shrunk(w0, d, a, b) && UMEM_PAGE < a && u in Removed(w, d, a - 1)
    ensures OnlyThese(w0.space, u.space, d, a - 1, b) && ShapeOk(u.space, d)
    ensures forall q {:trigger Lookup(u.space, d, q)} :: a - 1 <= q < b ==> Lookup(u.space, d, q) == NO_ENTRY
  {
    var p := a - 1;
    assert SetAt(w.space, u.space, d, p, NO_ENTRY, d, p);
    forall e, q | e in u.space.dirs && KSTACK_PAGE <= q < PAGES
      ensures ShapeOk(u.space, e) && Lookup(u.space, e, q) == if e == d && p <= q < b then NO_ENTRY else Lookup(w0.space, e, q)
    {
      assert SetAt(w.space, u.space, d, p, NO_ENTRY, e, q);
      assert !(e == d && a <= q < b) ==> Lookup(w.space, e, q) == Lookup(w0.space, e, q);
    }
  }

  lemma ShrinkFrames(w0: World, w: World, u: World, d: nat, a: int, b: int)
    requires w in Shrunk(w0, d, a, b) && UMEM_PAGE < a && u in Removed(w, d, a - 1)
    ensures forall f {:trigger f in u.used} :: f in u.used <==> f in w0.used && !BacksIn(w0.space, d, f, a - 1, b)
  {
    var g := FrameOf(w.space, d, a - 1);
    assert Lookup(w.space, d, a - 1) == Lookup(w0.space, d, a - 1);
    assert FrameOf(w0.space, d, a - 1) == g;
    forall f
      ensures BacksIn(w0.space, d, f, a - 1, b) <==> f == g || BacksIn(w0.space, d, f, a, b)
    {
    }
  }

  lemma ShrinkStep(w0: World, w: World, u: World, d: nat, a: int, b: int, c: int)
    requires w in Shrunk(w0, d, a, b) && UMEM_PAGE <= c == a - 1 && u in Removed(w, d, c)
    ensures u in Shrunk(w0, d, c, b)
  {
    ShrinkOnly(w0, w, u, d, a, b);
    ShrinkFrames(w0, w, u, d, a, b);
  }

  lemma ShrinkHeapPages(w: World, u: World, d: nat, begin: int, end: int)
    requires HeapPages(w.space, d, begin, end) && begin < end && u in Removed(w, d, end - 1)
    ensures HeapPages(u.space, d, begin, end - 1)
  {
    NoFlags();
    var last := end - 1;
    assert SetAt(w.space, u.space, d, last, NO_ENTRY, d, last);
    forall q | begin <= q < USTACK_PAGE
      ensures Has(u.space, d, q) <==> q < end - 1
    {
      assert SetAt(w.space, u.space, d, last, NO_ENTRY, d, q);
      assert Has(w.space, d, q) <==> q < end;
    }
  }

  lemma PageBelow(addr: int)
    requires addr % 4096 == 0
    ensures (addr - 4096) / 4096 == addr / 4096 - 1 && (addr - 4096) % 4096 == 0
  {
  }

  lemma LastPageThere(w: World, d: nat, begin: int, end: int)
    requires HeapPages(w.space, d, begin, end) && begin < end && Exclusive(w)
    ensures Has(w.space, d, end - 1) && FrameOf(w.space, d, end - 1) in w.used
  {
  }

  // ---------------------------------------------------------------- growing and shrinking back

  /** Giving back what was taken restores the frames in use, every page, and every byte in use. */
  lemma GrowThenShrink(w0: World, w1: World, w2: World, d: nat, a: int, b: int, e: nat, q: int)
    requires w1 in Grown(w0, d, a, b) && w2 in Shrunk(w1, d, a, b) && HeapPages(w0.space, d, a, a)
    requires e in w0.space.dirs && KSTACK_PAGE <= q < PAGES
    ensures w2.used == w0.used
    ensures forall f :: f in w0.used && f in w0.mem ==> f in w2.mem && w2.mem[f] == w0.mem[f]
    ensures ShapeOk(w2.space, e) && ShapeOk(w0.space, e)
    ensures Has(w2.space, e, q) <==> Has(w0.space, e, q)
    ensures Has(w2.space, e, q) ==> Lookup(w2.space, e, q) == Lookup(w0.space, e, q)
  {
    NoFlags();
    assert forall f :: f in w2.used <==> f in w0.used by {
      forall f: nat
        ensures f in w2.used <==> f in w0.used
      {
        GrownFrame(w0, w1, d, a, b, f);
      }
    }
    if e == d && a <= q < b {
      assert Lookup(w2.space, d, q) == NO_ENTRY;
      assert !Has(w0.space, d, q);
    } else {
      assert Lookup(w2.space, e, q) == Lookup(w1.space, e, q) == Lookup(w0.space, e, q);
    }
  }

  lemma GrownFrame(w0: World, w: World, d: nat, a: int, b: int, f: nat)
    requires w in Grown(w0, d, a, b)
    ensures f in w0.used <==> f in w.used && !BacksIn(w.space, d, f, a, b)
  {
    if BacksIn(w.space, d, f, a, b) {
      var q :| a <= q < b && FrameOf(w.space, d, q) == f;
      assert FreshPage(w0, w, d, q);
    }
  }

  // ---------------------------------------------------------------- where the heap starts

  /** Where `execve` puts the heap: at the first table boundary above the program. */
  function HeapStart(addr: int): (b: int)
    requires 0 <= addr < USTACK_BEGIN
    ensures addr < b <= addr + 0x40_0000 && b % 0x40_0000 == 0 && b <= USTACK_BEGIN
  {
    (addr + 0x40_0000) / 0x40_0000 * 0x40_0000
  }

  lemma HeapStartPage(addr: int)
    requires UMEM_BEGIN <= addr < USTACK_BEGIN
    ensures HeapStart(addr) % 4096 == 0 && UMEM_PAGE <= HeapStart(addr) / 4096 <= USTACK_PAGE
  {
    var t := (addr + 0x40_0000) / 0x40_0000;
    assert HeapStart(addr) == 4096 * (1024 * t);
    assert 64 <= t <= 1023;
  }
}
