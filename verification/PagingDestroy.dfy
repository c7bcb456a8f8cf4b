/** The end of an address space, with every `kfree` letting the kernel break fall (kernel/src/mm/task.c lines 193-219). */
module PagingDestroy {
  import opened PagingSpec
  import opened PagingClone
  import opened PagingKernel
  import opened PagingBreak
  import opened PagingOwners

  // ---------------------------------------------------------------- freeing tables one by one

  /** `clear_page_dir` of d has come to index i; the directory is not used any more. */
  function Releasing(w: World, d: nat, i: int): World
    requires ShapeOk(w.space, d) && i <= 1024
  {
    w.(space := Clearing(w.space, d, i))
  }

  /** The table at address t is freed. */
  function Without(s: Space, t: nat): Space { s.(tabs := s.tabs - {t}) }

  ghost predicate Unreferenced(s: Space, t: nat) {
    forall e, i {:trigger s.dirs[e].tables[i]} :: e in s.dirs && ShapeOk(s, e) && 0 <= i < 1024 ==> s.dirs[e].tables[i] != t
  }

  lemma WithoutKeeps(s: Space, t: nat)
    requires Valid(s) && Unreferenced(s, t)
    ensures Valid(Without(s, t))
    ensures forall e, q {:trigger Lookup(Without(s, t), e, q)} :: e in s.dirs && 0 <= q < PAGES ==>
              ShapeOk(Without(s, t), e) && ShapeOk(s, e) && Lookup(Without(s, t), e, q) == Lookup(s, e, q)
  {
    var u := Without(s, t);
    forall e | e in u.dirs
      ensures ShapeOk(u, e) && ShapeOk(s, e)
    {
      assert ShapeOk(s, e);
    }
  }

  lemma OwnUnreferenced(w0: World, w: World, d: nat, i: int, k: nat, b: int, n: nat)
    requires Valid(w0.space) && ShapeOk(w0.space, d) && SHARED <= i < 1024 && w0.space.dirs[d].tables[i] != 0
    requires w in Fallen(Releasing(w0, d, i), k, b, n)
    ensures Unreferenced(w.space, w0.space.dirs[d].tables[i])
  {
    forall e, j | e in w.space.dirs && ShapeOk(w.space, e) && 0 <= j < 1024
      ensures w.space.dirs[e].tables[j] != w0.space.dirs[d].tables[i]
    {
      assert KeepsTables(Releasing(w0, d, i).space, w.space, e);
      assert ShapeOk(w0.space, e) && w.space.dirs[e].tables[j] == w0.space.dirs[e].tables[j];
    }
  }

  lemma NextTable(s: Space, d: nat, i: int)
    requires ShapeOk(s, d) && SHARED <= i < 1024
    ensures Clearing(s, d, i + 1) == if s.dirs[d].tables[i] == 0 then Clearing(s, d, i) else Without(Clearing(s, d, i), s.dirs[d].tables[i])
  {
    var t := s.dirs[d].tables[i];
    assert OwnTables(s, d, i + 1) == if t == 0 then OwnTables(s, d, i) else OwnTables(s, d, i) + {t};
  }

  /** Freeing a table that is not used any more goes together with any fall. */
  lemma DropTable(w0: World, w: World, d: nat, i: int, next: int, k: nat, b: int, n: nat)
    requires Valid(w0.space) && ShapeOk(w0.space, d) && SHARED <= i < 1024 && next == i + 1 && w0.space.dirs[d].tables[i] != 0 && d != k
    requires w in Fallen(Releasing(w0, d, i), k, b, n) && KernelMaps(Releasing(w0, d, next).space, k)
    ensures w.(space := Without(w.space, w0.space.dirs[d].tables[i])) in Fallen(Releasing(w0, d, next), k, b, n)
  {
    var t := w0.space.dirs[d].tables[i];
    var v0, v1, u := Releasing(w0, d, i), Releasing(w0, d, next), w.(space := Without(w.space, t));
    OwnUnreferenced(w0, w, d, i, k, b, n);
    WithoutKeeps(w.space, t);
    NextTable(w0.space, d, i);
    forall e | e in v1.space.dirs
      ensures KeepsTables(v1.space, u.space, e)
    {
      assert KeepsTables(v0.space, w.space, e);
    }
    forall e, q | e in v1.space.dirs && 0 <= q < PAGES
      ensures FallenAt(v1, u, k, b, n, e, q)
    {
      DropPage(w0, w, d, i, next, k, b, n, e, q);
    }
    DropFreed(w0, d, i, next, k, b, n);
  }

  lemma DropPage(w0: World, w: World, d: nat, i: int, next: int, k: nat, b: int, n: nat, e: nat, q: int)
    requires Valid(w0.space) && ShapeOk(w0.space, d) && SHARED <= i < 1024 && next == i + 1 && w0.space.dirs[d].tables[i] != 0
    requires w in Fallen(Releasing(w0, d, i), k, b, n) && Unreferenced(w.space, w0.space.dirs[d].tables[i])
    requires e in w0.space.dirs && e != d && 0 <= q < PAGES
    ensures FallenAt(Releasing(w0, d, next), w.(space := Without(w.space, w0.space.dirs[d].tables[i])), k, b, n, e, q)
  {
    var t := w0.space.dirs[d].tables[i];
    WithoutKeeps(w.space, t);
    ClearKeeps(w0.space, d, i);
    ClearKeeps(w0.space, d, next);
    assert Lookup(Without(w.space, t), e, q) == Lookup(w.space, e, q);
    assert FallenAt(Releasing(w0, d, i), w, k, b, n, e, q);
    assert Lookup(Clearing(w0.space, d, i), e, q) == Lookup(w0.space, e, q) == Lookup(Clearing(w0.space, d, next), e, q);
  }

  lemma DropFreed(w0: World, d: nat, i: int, next: int, k: nat, b: int, n: nat)
    requires Valid(w0.space) && ShapeOk(w0.space, d) && i < 1024 && next == i + 1 && k in w0.space.dirs && k != d && b < PAGES && 0 <= b - n
    ensures var s0, s1 := Clearing(w0.space, d, i), Clearing(w0.space, d, next);
            && ShapeOk(s0, k) && ShapeOk(s1, k)
            && forall f: nat :: FreedBy(s0, k, b, n, f) <==> FreedBy(s1, k, b, n, f)
  {
    var s0, s1 := Clearing(w0.space, d, i), Clearing(w0.space, d, next);
    ClearKeeps(w0.space, d, i);
    ClearKeeps(w0.space, d, next);
    assert Lookup(s0, k, 0) == Lookup(w0.space, k, 0) && Lookup(s1, k, 0) == Lookup(w0.space, k, 0);
    SameFreed(s0, s1, k, b, n);
  }

  /** What a fall frees depends on the pages only. */
  lemma SameFreed(s0: Space, s1: Space, k: nat, b: int, n: nat)
    requires ShapeOk(s0, k) && ShapeOk(s1, k) && b < PAGES && 0 <= b - n
    requires forall q {:trigger Lookup(s0, k, q)} {:trigger Lookup(s1, k, q)} :: 0 <= q <= b ==> Lookup(s0, k, q) == Lookup(s1, k, q)
    ensures forall f: nat :: FreedBy(s0, k, b, n, f) <==> FreedBy(s1, k, b, n, f)
  {
    forall q | 0 <= q <= b
      ensures BreakFrame(s0, k, q) == BreakFrame(s1, k, q)
    {
      assert Lookup(s0, k, q) == Lookup(s1, k, q);
    }
    forall f: nat
      ensures FreedBy(s0, k, b, n, f) <==> FreedBy(s1, k, b, n, f)
    {
      if FreedBy(s0, k, b, n, f) {
        var q :| b - n < q <= b && BreakFrame(s0, k, q) == f;
        assert BreakFrame(s1, k, q) == f;
      }
      if FreedBy(s1, k, b, n, f) {
        var q :| b - n < q <= b && BreakFrame(s1, k, q) == f;
        assert BreakFrame(s0, k, q) == f;
      }
    }
  }

  lemma ReleasingMaps(w: World, d: nat, k: nat, i: int)
    requires KernelMaps(w.space, k) && d in w.space.dirs && d != k && i <= 1024
    ensures ShapeOk(w.space, d) && KernelMaps(Releasing(w, d, i).space, k)
  {
    ClearKeeps(w.space, d, i);
    var u := Clearing(w.space, d, i);
    forall e | e in u.dirs
      ensures KernelKept(w.space, u, e)
    {
      assert ShapeOk(w.space, e);
    }
    AllLinked(w.space, u, k);
    assert ShapeOk(u, k);
  }

  lemma ReleasingWorkable(w: World, d: nat, i: int, k: nat, lo: int, b: int)
    requires w in Workable(k, lo, b) && d in w.space.dirs && d != k && i <= 1024
    ensures ShapeOk(w.space, d) && Releasing(w, d, i) in Workable(k, lo, b)
  {
    ReleasingMaps(w, d, k, i);
    ClearKeeps(w.space, d, i);
    var u := Clearing(w.space, d, i);
    forall q | lo <= q <= KSTACK_PAGE
      ensures Has(u, k, q) == Has(w.space, k, q) && FrameOf(u, k, q) == FrameOf(w.space, k, q)
    {
      assert Lookup(u, k, q) == Lookup(w.space, k, q);
    }
  }

  lemma NothingReleased(w: World, d: nat)
    requires ShapeOk(w.space, d)
    ensures Releasing(w, d, SHARED) == w.(space := w.space.(dirs := w.space.dirs - {d}))
  {
    assert OwnTables(w.space, d, SHARED) == {};
  }

  /** Unmapping private pages of d leaves the kernel heap of k able to fall. */
  lemma TornWorkable(w0: World, w: World, d: nat, k: nat, lo: int, b: int)
    requires w0 in Workable(k, lo, b) && w in Torn(w0, d, PAGES) && d != k
    ensures w in Workable(k, lo, b)
  {
    TreeLinked(w0.space, w.space, k);
    forall q | lo <= q <= KSTACK_PAGE
      ensures Has(w.space, k, q) == Has(w0.space, k, q) && FrameOf(w.space, k, q) == FrameOf(w0.space, k, q)
    {
      assert Lookup(w.space, k, q) == Lookup(w0.space, k, q);
    }
  }

  // ---------------------------------------------------------------- how far the break falls

  /** Pages the break falls while the tables below index i are freed: gives[j] when the one at index j is. */
  function Given(tables: seq<nat>, gives: seq<nat>, i: int): nat
    requires SHARED <= i <= 1024 == |tables| && |gives| == 1026
    decreases i
  {
    if i == SHARED then 0 else Given(tables, gives, i - 1) + if tables[i - 1] != 0 then gives[i - 1] else 0
  }

  /** ... and when the directory and the task are. */
  function AllGiven(tables: seq<nat>, gives: seq<nat>): nat
    requires |tables| == 1024 && |gives| == 1026
  {
    Given(tables, gives, |tables|) + gives[1024] + gives[1025]
  }

  lemma {:induction false} GivenGrows(tables: seq<nat>, gives: seq<nat>, i: int, j: int)
    requires SHARED <= i <= j <= 1024 == |tables| && |gives| == 1026
    ensures Given(tables, gives, i) <= Given(tables, gives, j)
    decreases j
  {
    if i < j {
      GivenGrows(tables, gives, i, j - 1);
    }
  }

  /** The directory is gone, whatever the break does. */
  lemma DirGone(w0: World, w: World, d: nat, k: nat, b: int, n: nat)
    requires ShapeOk(w0.space, d) && w in Fallen(Gone(w0, d), k, b, n)
    ensures d !in w.space.dirs
  {
  }

  // ---------------------------------------------------------------- fork, then destroy

  /** A child is forked and destroyed again, and the break falls n pages from page b meanwhile. */
  ghost predicate ForkedAndDestroyed(w0: World, w1: World, w2: World, w3: World, cur: nat, child: nat, k: nat, lo: int, b: int, n: nat) {
    && HeapState(w0, k, lo, b) && cur in w0.space.dirs && child !in w0.space.dirs && lo <= b - n
    && w1 in Cloned(Blanked(w0, cur, child), cur, child, PAGES) && w2 in Torn(w1, child, PAGES)
    && w3 in Fallen(Gone(w2, child), k, b, n)
  }

  /** The same directories with the same pages. */
  ghost predicate SamePages(s0: Space, s: Space) {
    && Shaped(s0) && Shaped(s) && s.dirs.Keys == s0.dirs.Keys
    && forall e, q {:trigger SamePage(s0, s, e, q)} {:trigger Lookup(s, e, q)} ::
         e in s0.dirs && 0 <= q < PAGES ==> SamePage(s0, s, e, q)
  }

  ghost predicate SamePage(s0: Space, s: Space, e: nat, q: int)
    requires 0 <= q < PAGES
  {
    ShapeOk(s, e) && ShapeOk(s0, e) && Lookup(s, e, q) == Lookup(s0, e, q)
  }

  /** What the fork and the teardown leave before anything is given back: the frames and pages that were there. */
  lemma RoundTrip(w0: World, w1: World, w2: World, v: World, cur: nat, child: nat, k: nat, lo: int, b: int)
    requires HeapState(w0, k, lo, b) && cur in w0.space.dirs && child !in w0.space.dirs
    requires w1 in Cloned(Blanked(w0, cur, child), cur, child, PAGES) && w2 in Torn(w1, child, PAGES) && v == Gone(w2, child)
    ensures v.used == w0.used && SamePages(w0.space, v.space)
  {
    ForkThenTearFrames(Blanked(w0, cur, child), w1, w2, cur, child);
    RoundTripShape(w0, w1, w2, cur, child);
    forall e, q | e in w0.space.dirs && 0 <= q < PAGES
      ensures SamePage(w0.space, v.space, e, q)
    {
      RoundTripPage(w0, w1, w2, cur, child, k, e, q);
    }
  }

  lemma RoundTripShape(w0: World, w1: World, w2: World, cur: nat, child: nat)
    requires Shaped(w0.space) && cur in w0.space.dirs && child !in w0.space.dirs
    requires w1 in Cloned(Blanked(w0, cur, child), cur, child, PAGES) && w2 in Torn(w1, child, PAGES)
    ensures Shaped(Gone(w2, child).space) && Gone(w2, child).space.dirs.Keys == w0.space.dirs.Keys
  {
    ForkKeys(w0, w1, cur, child);
    GoneKeys(w1, w2, child);
    KeysBack(w0.space.dirs.Keys, child);
  }

  lemma KeysBack(s: set<nat>, x: nat)
    requires x !in s
    ensures s + {x} - {x} == s
  {
  }

  lemma ForkKeys(w0: World, w1: World, cur: nat, child: nat)
    requires Shaped(w0.space) && cur in w0.space.dirs && child !in w0.space.dirs
    requires w1 in Cloned(Blanked(w0, cur, child), cur, child, PAGES)
    ensures w1.space.dirs.Keys == w0.space.dirs.Keys + {child}
  {
  }

  lemma GoneKeys(w1: World, w2: World, d: nat)
    requires w2 in Torn(w1, d, PAGES)
    ensures Shaped(Gone(w2, d).space) && Gone(w2, d).space.dirs.Keys == w1.space.dirs.Keys - {d}
  {
    ClearKeeps(w2.space, d, 1024);
  }

  lemma RoundTripPage(w0: World, w1: World, w2: World, cur: nat, child: nat, k: nat, e: nat, q: int)
    requires KernelMaps(w0.space, k) && Lookup(w0.space, k, 0) == NO_ENTRY && cur in w0.space.dirs && child !in w0.space.dirs
    requires w1 in Cloned(Blanked(w0, cur, child), cur, child, PAGES) && w2 in Torn(w1, child, PAGES) && e in w0.space.dirs && 0 <= q < PAGES
    ensures SamePage(w0.space, Gone(w2, child).space, e, q)
  {
    ForkSame(w0, w1, k, cur, child, e, q);
    DestroySame(w1, w2, child, e, q);
  }

  /** Destroying a freshly forked child gives back the frames the fork took, and on top of them those the fall of the
      kernel break frees: what was in use is in use again exactly when the break does not fall, or falls one page and finds
      a frame that was not in use. */
  lemma ForkThenDestroyFrames(w0: World, w1: World, w2: World, w3: World, cur: nat, child: nat, k: nat, lo: int, b: int, n: nat)
    requires ForkedAndDestroyed(w0, w1, w2, w3, cur, child, k, lo, b, n)
    ensures forall f {:trigger f in w3.used} :: f in w3.used <==> f in w0.used && !FreedBy(w0.space, k, b, n, f)
    ensures w3.used == w0.used <==> n == 0 || (n == 1 && BreakFrame(w0.space, k, b) !in w0.used)
  {
    var v := Gone(w2, child);
    RoundTrip(w0, w1, w2, v, cur, child, k, lo, b);
    FrameBalance(w0, v, w3, k, lo, b, n);
  }

  lemma FrameBalance(w0: World, v: World, w3: World, k: nat, lo: int, b: int, n: nat)
    requires HeapState(w0, k, lo, b) && v.used == w0.used && SamePages(w0.space, v.space) && w3 in Fallen(v, k, b, n) && lo <= b - n
    ensures forall f {:trigger f in w3.used} :: f in w3.used <==> f in w0.used && !FreedBy(w0.space, k, b, n, f)
    ensures w3.used == w0.used <==> n == 0 || (n == 1 && BreakFrame(w0.space, k, b) !in w0.used)
  {
    forall q | 0 <= q <= b
      ensures Lookup(w0.space, k, q) == Lookup(v.space, k, q)
    {
      assert SamePage(w0.space, v.space, k, q);
    }
    SameFreed(w0.space, v.space, k, b, n);
    FreesInUse(w0, k, lo, b, n);
  }

  /** When a fall frees a frame in use. */
  lemma FreesInUse(w: World, k: nat, lo: int, b: int, n: nat)
    requires HeapThere(w.space, k, lo, b) && HeapOwned(w, k, lo) && lo <= b - n
    ensures (forall f :: f in w.used ==> !FreedBy(w.space, k, b, n, f)) <==> n == 0 || (n == 1 && BreakFrame(w.space, k, b) !in w.used)
  {
    var s := w.space;
    if n >= 2 {
      var f := BreakFrame(s, k, b - 1);
      assert Has(s, k, b - 1) && f in w.used && FreedBy(s, k, b, n, f);
    } else if n == 1 {
      assert FreedBy(s, k, b, n, BreakFrame(s, k, b));
      assert forall f: nat :: FreedBy(s, k, b, n, f) ==> f == BreakFrame(s, k, b);
    }
  }

  /** ... and every page of every address space is as it was, but for those above the new break. */
  lemma ForkThenDestroyPages(w0: World, w1: World, w2: World, w3: World, cur: nat, child: nat, k: nat, lo: int, b: int, n: nat, e: nat, q: int)
    requires ForkedAndDestroyed(w0, w1, w2, w3, cur, child, k, lo, b, n) && e in w0.space.dirs && 0 <= q < PAGES
    ensures w3.space.dirs.Keys == w0.space.dirs.Keys
    ensures ShapeOk(w3.space, e) && ShapeOk(w0.space, e) && Lookup(w3.space, e, q) == FallenEntry(w0.space, k, b, n, e, q)
  {
    var v := Gone(w2, child);
    RoundTrip(w0, w1, w2, v, cur, child, k, lo, b);
    PageBalance(w0, v, w3, k, b, n, e, q);
  }

  lemma PageBalance(w0: World, v: World, w3: World, k: nat, b: int, n: nat, e: nat, q: int)
    requires SamePages(w0.space, v.space) && w3 in Fallen(v, k, b, n) && e in w0.space.dirs && 0 <= q < PAGES
    ensures w3.space.dirs.Keys == w0.space.dirs.Keys
    ensures ShapeOk(w3.space, e) && ShapeOk(w0.space, e) && Lookup(w3.space, e, q) == FallenEntry(w0.space, k, b, n, e, q)
  {
    assert SamePage(w0.space, v.space, e, q) && FallenAt(v, w3, k, b, n, e, q);
  }

  /** Ownership survives exactly when the fall was safe to begin with. */
  lemma ForkThenDestroyOwned(w0: World, w1: World, w2: World, w3: World, cur: nat, child: nat, k: nat, lo: int, b: int, n: nat)
    requires ForkedAndDestroyed(w0, w1, w2, w3, cur, child, k, lo, b, n) && Exclusive(w0) && Linked(w1.space, k)
    ensures AllOwned(w3, k, lo) <==> Safe(w0, k, lo, b, n)
  {
    var v := Gone(w2, child);
    RoundTrip(w0, w1, w2, v, cur, child, k, lo, b);
    ForkMaps(w0, w1, k, cur, child);
    DestroyMaps(w1, w2, child, k);
    OwnedBalance(w0, v, w3, k, lo, b, n);
  }

  lemma OwnedBalance(w0: World, v: World, w3: World, k: nat, lo: int, b: int, n: nat)
    requires HeapState(w0, k, lo, b) && Exclusive(w0) && SamePages(w0.space, v.space) && v.used == w0.used && KernelMaps(v.space, k)
    requires w3 in Fallen(v, k, b, n) && lo <= b - n
    ensures AllOwned(w3, k, lo) <==> Safe(w0, k, lo, b, n)
  {
    SameOwned(w0, v, k, lo, b);
    SameSafe(w0, v, k, lo, b, n);
    FallOwnedIff(v, w3, k, lo, b, n);
  }

  /** Ownership depends on the pages and the frames in use only. */
  lemma SameOwned(w0: World, v: World, k: nat, lo: int, b: int)
    requires HeapState(w0, k, lo, b) && Exclusive(w0) && SamePages(w0.space, v.space) && v.used == w0.used && KernelMaps(v.space, k)
    ensures HeapState(v, k, lo, b) && Exclusive(v)
  {
    SamePrivate(w0.space, v.space);
    assert SamePage(w0.space, v.space, k, 0);
    StateKept(w0, v, k, lo, b);
    forall d, q | d in v.space.dirs && KSTACK_PAGE <= q < PAGES && Has(v.space, d, q)
      ensures FrameOf(v.space, d, q) in v.used
    {
      assert SamePage(w0.space, v.space, d, q) && Has(w0.space, d, q);
    }
    forall d, q, e, r | d in v.space.dirs && e in v.space.dirs && KSTACK_PAGE <= q < PAGES && KSTACK_PAGE <= r < PAGES
        && Has(v.space, d, q) && Has(v.space, e, r) && FrameOf(v.space, d, q) == FrameOf(v.space, e, r)
      ensures d == e && q == r
    {
      assert SamePage(w0.space, v.space, d, q) && SamePage(w0.space, v.space, e, r);
      assert FrameOf(w0.space, d, q) == FrameOf(w0.space, e, r);
    }
  }

  lemma SameSafe(w0: World, v: World, k: nat, lo: int, b: int, n: nat)
    requires HeapThere(w0.space, k, lo, b) && HeapThere(v.space, k, lo, b) && SamePages(w0.space, v.space) && lo <= b - n
    ensures Safe(w0, k, lo, b, n) <==> Safe(v, k, lo, b, n)
  {
    SamePrivate(w0.space, v.space);
    forall q | 0 <= q <= b
      ensures Has(v.space, k, q) == Has(w0.space, k, q) && FrameOf(v.space, k, q) == FrameOf(w0.space, k, q)
    {
      assert SamePage(w0.space, v.space, k, q);
    }
  }

  lemma SamePrivate(s0: Space, s: Space)
    requires SamePages(s0, s)
    ensures forall f: nat :: Private(s0, f) <==> Private(s, f)
  {
    forall f: nat
      ensures Private(s0, f) <==> Private(s, f)
    {
      if Private(s0, f) {
        var d, q :| d in s0.dirs && KSTACK_PAGE <= q < PAGES && Has(s0, d, q) && FrameOf(s0, d, q) == f;
        assert SamePage(s0, s, d, q) && FrameOf(s, d, q) == f;
      }
      if Private(s, f) {
        var d, q :| d in s.dirs && KSTACK_PAGE <= q < PAGES && Has(s, d, q) && FrameOf(s, d, q) == f;
        assert SamePage(s0, s, d, q) && FrameOf(s0, d, q) == f;
      }
    }
  }
}
