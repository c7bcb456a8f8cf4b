/** What `clone_page_dir` and the tear-down of an address space in `task_destroy` do to every page and every frame. */
module PagingClone {
  import opened PagingSpec

  /** Two address spaces, one of them running, with the table that holds page 0. */
  ghost predicate Pair(s: Space, cur: nat, child: nat) {
    && Valid(s) && cur in s.dirs && child in s.dirs && cur != child
    && ShapeOk(s, cur) && ShapeOk(s, child) && s.dirs[cur].tables[0] != 0
  }

  /** The copy window is opened in `win`, whose table for page 0 the running directory shares; it is closed. */
  ghost predicate Sees(s: Space, win: nat, cur: nat, child: nat) {
    && Pair(s, cur, child) && win in s.dirs && win != child && ShapeOk(s, win)
    && s.dirs[win].tables[0] == s.dirs[cur].tables[0] && Lookup(s, win, 0) == NO_ENTRY
  }

  /** Mapping into an existing table leaves all table addresses alone. */
  lemma SameTables(s: Space, d: nat, p: int, frame: nat, flags: bv32, at: nat)
    requires Shaped(s) && d in s.dirs && ShapeOk(s, d) && 0 <= p < PAGES && s.dirs[d].tables[p / 1024] != 0
    ensures var u := Mapped(s, d, p, frame, flags, at);
            && u.tabs.Keys == s.tabs.Keys && u.dirs.Keys == s.dirs.Keys
            && forall e :: e in s.dirs ==> u.dirs[e].tables == s.dirs[e].tables
  {
  }

  /** The window at page 0 leaves the tables where they are. */
  lemma WindowKeeps(s: Space, cur: nat, f: nat, at: nat)
    requires Valid(s) && cur in s.dirs && ShapeOk(s, cur) && s.dirs[cur].tables[0] != 0 && at != 0 && at !in s.tabs
    ensures var u := Window(s, cur, f, at);
            && Valid(u) && u.tabs.Keys == s.tabs.Keys && u.dirs.Keys == s.dirs.Keys
            && forall e :: e in s.dirs ==> u.dirs[e].tables == s.dirs[e].tables
  {
    MapValid(s, cur, MapCall(0, f, PF_PRES | PF_RW, at));
    SameTables(s, cur, 0, f, PF_PRES | PF_RW, at);
    var s1 := Mapped(s, cur, 0, f, PF_PRES | PF_RW, at);
    assert ShapeOk(s1, cur);
    MapValid(s1, cur, MapCall(0, 0, 0, at));
    SameTables(s1, cur, 0, 0, 0, at);
  }

  /** A window that was closed leaves every page as it was when it is closed again. */
  lemma WindowLookup(s: Space, cur: nat, f: nat, at: nat, e: nat, q: int)
    requires Valid(s) && cur in s.dirs && ShapeOk(s, cur) && s.dirs[cur].tables[0] != 0 && at != 0 && at !in s.tabs
    requires Lookup(s, cur, 0) == NO_ENTRY && e in s.dirs && 0 <= q < PAGES
    ensures ShapeOk(s, e) && e in Window(s, cur, f, at).dirs && ShapeOk(Window(s, cur, f, at), e)
    ensures Lookup(Window(s, cur, f, at), e, q) == Lookup(s, e, q)
  {
    MapValid(s, cur, MapCall(0, f, PF_PRES | PF_RW, at));
    SameTables(s, cur, 0, f, PF_PRES | PF_RW, at);
    MapRefines(s, cur, 0, f, PF_PRES | PF_RW, at, e, q);
    var s1 := Mapped(s, cur, 0, f, PF_PRES | PF_RW, at);
    MapRefines(s1, cur, 0, 0, 0, at, e, q);
    assert (0 as bv32) & ENTRY_FLAGS == 0;
    assert ShapeOk(s1, cur) && (SamePlace(s, cur, 0, e, q) <==> SamePlace(s1, cur, 0, e, q));
    assert SamePlace(s, cur, 0, e, q) ==> Lookup(s, e, q) == Lookup(s, cur, 0);
  }

  lemma MapTree(s: Space, d: nat, p: int, frame: nat, flags: bv32, at: nat)
    requires Valid(s) && d in s.dirs && ShapeOk(s, d) && KSTACK_PAGE <= p < PAGES && at != 0 && at !in s.tabs
    ensures var u := Mapped(s, d, p, frame, flags, at);
            && Valid(u) && u.dirs.Keys == s.dirs.Keys
            && (forall e :: e in u.dirs && e != d ==> u.dirs[e].tables == s.dirs[e].tables)
            && u.dirs[d].tables == s.dirs[d].tables[p / 1024 := TableFor(s, d, p / 1024, at)]
  {
    MapValid(s, d, MapCall(p, frame, flags, at));
  }

  /** The directories, and the table addresses they hold, after a page is copied. */
  lemma CopyTree(w: World, win: nat, cur: nat, child: nat, p: int, f: nat, at: nat)
    requires Sees(w.space, win, cur, child) && KSTACK_PAGE <= p < PAGES && at != 0 && at !in w.space.tabs
    requires FrameOf(w.space, cur, p) in w.mem
    ensures var u := CopyPage(w, win, cur, child, p, f, at).space;
            && Valid(u) && u.dirs.Keys == w.space.dirs.Keys
            && (forall e :: e in u.dirs && e != child ==> u.dirs[e].tables == w.space.dirs[e].tables)
            && u.dirs[child].tables == w.space.dirs[child].tables[p / 1024 := TableFor(w.space, child, p / 1024, at)]
  {
    WindowKeeps(w.space, win, f, at);
    var s2 := Window(w.space, win, f, at);
    assert ShapeOk(s2, child);
    MapTree(s2, child, p, f, PageFlags(w.space, cur, p), at);
  }

  /** ... where the window is closed again. */
  lemma CopyKeeps(w: World, win: nat, cur: nat, child: nat, p: int, f: nat, at: nat)
    requires Sees(w.space, win, cur, child) && KSTACK_PAGE <= p < PAGES && at != 0 && at !in w.space.tabs
    requires FrameOf(w.space, cur, p) in w.mem
    ensures var u := CopyPage(w, win, cur, child, p, f, at).space;
            && Sees(u, win, cur, child) && u.dirs.Keys == w.space.dirs.Keys
            && (forall e :: e in u.dirs && e != child ==> u.dirs[e].tables == w.space.dirs[e].tables)
            && u.dirs[child].tables == w.space.dirs[child].tables[p / 1024 := TableFor(w.space, child, p / 1024, at)]
  {
    CopyTree(w, win, cur, child, p, f, at);
    CopyEffect(w, win, cur, child, p, f, at, win, 0);
    var u := CopyPage(w, win, cur, child, p, f, at).space;
    assert ShapeOk(u, cur) && ShapeOk(u, child);
  }

  /** Copying page p changes page p of the child and nothing else. */
  lemma CopyEffect(w: World, win: nat, cur: nat, child: nat, p: int, f: nat, at: nat, e: nat, q: int)
    requires Sees(w.space, win, cur, child) && KSTACK_PAGE <= p < PAGES && at != 0 && at !in w.space.tabs
    requires FrameOf(w.space, cur, p) in w.mem && e in w.space.dirs && 0 <= q < PAGES
    ensures var u := CopyPage(w, win, cur, child, p, f, at).space;
            && e in u.dirs && ShapeOk(u, e) && ShapeOk(w.space, e)
            && (e == child && q == p ==> Lookup(u, e, q) == Entry(Lookup(w.space, cur, p).flags, f))
            && (!(e == child && q == p) ==> Lookup(u, e, q) == Lookup(w.space, e, q))
  {
    FlagsRoundTrip(w.space, cur, p);
    WindowKeeps(w.space, win, f, at);
    WindowLookup(w.space, win, f, at, e, q);
    var s2 := Window(w.space, win, f, at);
    MapRefines(s2, child, p, f, PageFlags(w.space, cur, p), at, e, q);
    assert ShapeOk(s2, child) && ShapeOk(s2, e);
    if e != child && q == p {
      assert !SamePlace(s2, child, p, e, q);
    }
  }

  /** Directory e holds the same tables as before. */
  ghost predicate KeepsTables(s0: Space, s: Space, e: nat)
    requires e in s0.dirs
  {
    e in s.dirs && s.dirs[e].tables == s0.dirs[e].tables
  }

  /** The same directories with the same table addresses. */
  ghost predicate SameTree(s0: Space, s: Space) {
    && s.tabs.Keys == s0.tabs.Keys && s.dirs.Keys == s0.dirs.Keys
    && forall e {:trigger KeepsTables(s0, s, e)} :: e in s0.dirs ==> KeepsTables(s0, s, e)
  }

  lemma TreeTwice(s0: Space, s1: Space, s2: Space)
    requires SameTree(s0, s1) && SameTree(s1, s2)
    ensures SameTree(s0, s2)
  {
    forall e | e in s0.dirs
      ensures KeepsTables(s0, s2, e)
    {
      assert KeepsTables(s0, s1, e) && KeepsTables(s1, s2, e);
    }
  }

  /** Page p of d has the given entry, and no other page of any address space has changed. */
  ghost predicate PageSet(s: Space, u: Space, d: nat, p: int, entry: Entry) {
    && d in s.dirs && Valid(u) && u.dirs.Keys == s.dirs.Keys && 0 <= p < PAGES
    && forall e, q {:trigger SetAt(s, u, d, p, entry, e, q)} {:trigger Lookup(u, e, q)} ::
         e in s.dirs && 0 <= q < PAGES ==> SetAt(s, u, d, p, entry, e, q)
  }

  ghost predicate SetAt(s: Space, u: Space, d: nat, p: int, entry: Entry, e: nat, q: int)
    requires 0 <= q < PAGES
  {
    ShapeOk(u, e) && ShapeOk(s, e) && Lookup(u, e, q) == if e == d && q == p then entry else Lookup(s, e, q)
  }

  // ---------------------------------------------------------------- the loop of clone_page_dir

  /** The pages a present frame must back, and hold. */
  ghost predicate Backed(w: World, d: nat) {
    && d in w.space.dirs && ShapeOk(w.space, d)
    && forall q {:trigger Has(w.space, d, q)} :: KSTACK_PAGE <= q < PAGES && Has(w.space, d, q) ==>
         FrameOf(w.space, d, q) in w.used && FrameOf(w.space, d, q) in w.mem
  }

  /** Page q of the child is a copy of page q of the parent, in a frame that was free. */
  ghost predicate Copied(w0: World, w: World, cur: nat, child: nat, q: int)
    requires Pair(w0.space, cur, child) && Pair(w.space, cur, child) && KSTACK_PAGE <= q < PAGES
  {
    && (Has(w.space, child, q) <==> Has(w0.space, cur, q))
    && (Has(w.space, child, q) ==>
          var f, g := FrameOf(w.space, child, q), FrameOf(w0.space, cur, q);
          && Lookup(w.space, child, q).flags == Lookup(w0.space, cur, q).flags
          && f !in w0.used && f in w.used && f in w.mem && g in w0.mem && w.mem[f] == w0.mem[g])
  }

  /** No other address space, and no page of the running one, has changed. */
  ghost predicate OthersSame(w0: World, w: World, child: nat) {
    && w.space.dirs.Keys == w0.space.dirs.Keys && Shaped(w.space) && Shaped(w0.space)
    && forall e, q {:trigger Lookup(w.space, e, q)} :: e in w.space.dirs && e != child && 0 <= q < PAGES ==>
         Lookup(w.space, e, q) == Lookup(w0.space, e, q)
  }

  /** Frames in use before are still in use and hold what they held. */
  ghost predicate OldFramesKept(w0: World, w: World) {
    && w0.used <= w.used
    && (forall f :: f in w0.used && f in w0.mem ==> f in w.mem && w.mem[f] == w0.mem[f])
  }

  /** Frames taken since then back a page of d below p. */
  ghost predicate NewFramesBack(w0: World, w: World, d: nat, p: int)
    requires ShapeOk(w.space, d) && p <= PAGES
  {
    forall f {:trigger BacksBelow(w.space, d, f, p)} :: f in w.used && f !in w0.used ==> BacksBelow(w.space, d, f, p)
  }

  /** No frame backs two pages of d below p. */
  ghost predicate OneEach(s: Space, d: nat, p: int)
    requires ShapeOk(s, d) && p <= PAGES
  {
    forall q, r {:trigger FrameOf(s, d, q), FrameOf(s, d, r)}
      | KSTACK_PAGE <= q < r < p && Has(s, d, q) && Has(s, d, r) :: FrameOf(s, d, q) != FrameOf(s, d, r)
  }

  ghost predicate BacksBelow(s: Space, d: nat, f: nat, p: int)
    requires ShapeOk(s, d) && p <= PAGES
  {
    exists q {:trigger FrameOf(s, d, q)} :: KSTACK_PAGE <= q < p && Has(s, d, q) && FrameOf(s, d, q) == f
  }

  /** Pages below p are done, the rest of the child is empty. */
  ghost function Cloned(w0: World, cur: nat, child: nat, p: int): iset<World> {
    iset w: World |
      && Pair(w0.space, cur, child) && Pair(w.space, cur, child) && KSTACK_PAGE <= p <= PAGES
      && OthersSame(w0, w, child)
      && (forall q {:trigger Copied(w0, w, cur, child, q)} :: KSTACK_PAGE <= q < p ==> Copied(w0, w, cur, child, q))
      && (forall q {:trigger Has(w.space, child, q)} :: p <= q < PAGES ==> !Has(w.space, child, q))
      && OldFramesKept(w0, w) && NewFramesBack(w0, w, child, p) && OneEach(w.space, child, p)
      && OthersKeep(w0.space, w.space, child)
  }

  lemma CloneSkip(w0: World, w: World, cur: nat, child: nat, p: int, next: int)
    requires w in Cloned(w0, cur, child, p) && p < PAGES && !Has(w.space, cur, p) && next == p + 1
    ensures w in Cloned(w0, cur, child, next)
  {
    assert Lookup(w.space, cur, p) == Lookup(w0.space, cur, p);
    assert Copied(w0, w, cur, child, p);
    forall f | f in w.used && f !in w0.used
      ensures BacksBelow(w.space, child, f, next)
    {
      assert BacksBelow(w.space, child, f, p);
    }
  }

  /** Every other directory holds its tables, and so does the child below the border. */
  ghost predicate OthersKeep(s: Space, u: Space, child: nat) {
    && child in s.dirs && child in u.dirs && ShapeOk(s, child) && ShapeOk(u, child)
    && (forall e {:trigger KeepsTables(s, u, e)} :: e in s.dirs && e != child ==> KeepsTables(s, u, e))
    && u.dirs[child].tables[..SHARED] == s.dirs[child].tables[..SHARED]
  }

  /** Page p of the child has become a copy of page p of the running address space, in frame f, which was free. */
  ghost function Copies(w: World, cur: nat, child: nat, p: int, f: nat): iset<World> {
    iset u: World |
      && KSTACK_PAGE <= p < PAGES && ShapeOk(w.space, cur) && FrameOf(w.space, cur, p) in w.mem
      && PageSet(w.space, u.space, child, p, Entry(Lookup(w.space, cur, p).flags, f)) && OthersKeep(w.space, u.space, child)
      && f !in w.used && u.used == w.used + {f} && u.mem == w.mem[f := w.mem[FrameOf(w.space, cur, p)]]
  }

  lemma PageCopied(w: World, win: nat, cur: nat, child: nat, p: int, f: nat, at: nat)
    requires Sees(w.space, win, cur, child) && KSTACK_PAGE <= p < PAGES && at != 0 && at !in w.space.tabs
    requires FrameOf(w.space, cur, p) in w.mem && f !in w.used
    ensures CopyPage(w, win, cur, child, p, f, at) in Copies(w, cur, child, p, f)
    ensures Sees(CopyPage(w, win, cur, child, p, f, at).space, win, cur, child)
  {
    var u, entry := CopyPage(w, win, cur, child, p, f, at), Entry(Lookup(w.space, cur, p).flags, f);
    CopyKeeps(w, win, cur, child, p, f, at);
    forall e, q | e in w.space.dirs && 0 <= q < PAGES
      ensures SetAt(w.space, u.space, child, p, entry, e, q)
    {
      CopyEffect(w, win, cur, child, p, f, at, e, q);
    }
    forall e | e in w.space.dirs && e != child
      ensures KeepsTables(w.space, u.space, e)
    {
    }
  }

  /** Everything a copied page needs to know about the step. */
  ghost predicate StepContext(w0: World, w: World, u: World, cur: nat, child: nat, p: int, f: nat) {
    w in Cloned(w0, cur, child, p) && Backed(w0, cur) && p < PAGES && Has(w.space, cur, p) && u in Copies(w, cur, child, p, f)
  }

  lemma StepEntry(w0: World, w: World, u: World, cur: nat, child: nat, p: int, f: nat, e: nat, q: int)
    requires StepContext(w0, w, u, cur, child, p, f) && e in w.space.dirs && 0 <= q < PAGES
    ensures ShapeOk(u.space, e) && ShapeOk(w.space, e)
    ensures Lookup(u.space, e, q) == if e == child && q == p then Entry(Lookup(w.space, cur, p).flags, f) else Lookup(w.space, e, q)
  {
    var entry := Entry(Lookup(w.space, cur, p).flags, f);
    assert SetAt(w.space, u.space, child, p, entry, e, q);
  }

  lemma StepPair(w0: World, w: World, u: World, cur: nat, child: nat, p: int, f: nat)
    requires StepContext(w0, w, u, cur, child, p, f)
    ensures Pair(u.space, cur, child)
  {
    StepEntry(w0, w, u, cur, child, p, f, cur, 0);
    StepEntry(w0, w, u, cur, child, p, f, child, 0);
    assert KeepsTables(w.space, u.space, cur);
  }

  lemma StepSource(w0: World, w: World, u: World, cur: nat, child: nat, p: int, f: nat)
    requires StepContext(w0, w, u, cur, child, p, f)
    ensures Lookup(w.space, cur, p) == Lookup(w0.space, cur, p)
    ensures var g := FrameOf(w.space, cur, p); g in w0.used && g in w0.mem && g in w.mem && w.mem[g] == w0.mem[g] && g != f
  {
    assert Lookup(w.space, cur, p) == Lookup(w0.space, cur, p);
    assert Has(w0.space, cur, p);
  }

  lemma StepOthers(w0: World, w: World, u: World, cur: nat, child: nat, p: int, f: nat)
    requires StepContext(w0, w, u, cur, child, p, f)
    ensures OthersSame(w0, u, child)
  {
    forall e, q | e in u.space.dirs && e != child && 0 <= q < PAGES
      ensures Lookup(u.space, e, q) == Lookup(w0.space, e, q)
    {
      StepEntry(w0, w, u, cur, child, p, f, e, q);
    }
  }

  lemma StepCopied(w0: World, w: World, u: World, cur: nat, child: nat, p: int, f: nat, q: int)
    requires StepContext(w0, w, u, cur, child, p, f) && KSTACK_PAGE <= q < PAGES
    ensures Pair(u.space, cur, child)
    ensures q <= p ==> Copied(w0, u, cur, child, q)
    ensures q > p ==> !Has(u.space, child, q)
  {
    StepSource(w0, w, u, cur, child, p, f);
    StepPair(w0, w, u, cur, child, p, f);
    StepEntry(w0, w, u, cur, child, p, f, child, q);
    if q < p {
      assert Copied(w0, w, cur, child, q);
    } else if q > p {
      assert !Has(w.space, child, q);
    }
  }

  lemma StepBacks(w0: World, w: World, u: World, cur: nat, child: nat, p: int, f: nat, g: nat)
    requires StepContext(w0, w, u, cur, child, p, f) && (g == f || (g in w.used && g !in w0.used))
    ensures ShapeOk(u.space, child) && BacksBelow(u.space, child, g, p + 1)
  {
    if g == f {
      StepEntry(w0, w, u, cur, child, p, f, child, p);
      assert FrameOf(u.space, child, p) == f && Has(u.space, child, p);
    } else {
      assert BacksBelow(w.space, child, g, p);
      var q :| KSTACK_PAGE <= q < p && Has(w.space, child, q) && FrameOf(w.space, child, q) == g;
      StepEntry(w0, w, u, cur, child, p, f, child, q);
      assert FrameOf(u.space, child, q) == g && Has(u.space, child, q);
    }
  }

  lemma StepNewFrames(w0: World, w: World, u: World, cur: nat, child: nat, p: int, f: nat, next: int)
    requires StepContext(w0, w, u, cur, child, p, f) && ShapeOk(u.space, child) && next == p + 1
    ensures NewFramesBack(w0, u, child, next)
  {
    forall g | g in u.used && g !in w0.used
      ensures BacksBelow(u.space, child, g, next)
    {
      StepBacks(w0, w, u, cur, child, p, f, g);
    }
  }

  /** A page of the child below p is as it was, and its frame is not the new one. */
  lemma StepOld(w0: World, w: World, u: World, cur: nat, child: nat, p: int, f: nat, q: int)
    requires StepContext(w0, w, u, cur, child, p, f) && KSTACK_PAGE <= q < p
    ensures ShapeOk(u.space, child) && (Has(u.space, child, q) <==> Has(w.space, child, q))
    ensures Has(u.space, child, q) ==> FrameOf(u.space, child, q) == FrameOf(w.space, child, q) && FrameOf(w.space, child, q) != f
  {
    StepEntry(w0, w, u, cur, child, p, f, child, q);
    assert Copied(w0, w, cur, child, q);
  }

  /** No frame backs two pages of the child. */
  lemma StepOneEach(w0: World, w: World, u: World, cur: nat, child: nat, p: int, f: nat, next: int)
    requires StepContext(w0, w, u, cur, child, p, f) && ShapeOk(u.space, child) && next == p + 1
    ensures OneEach(u.space, child, next)
  {
    StepEntry(w0, w, u, cur, child, p, f, child, p);
    forall q, r | KSTACK_PAGE <= q < r < next && Has(u.space, child, q) && Has(u.space, child, r)
      ensures FrameOf(u.space, child, q) != FrameOf(u.space, child, r)
    {
      StepOld(w0, w, u, cur, child, p, f, q);
      if r < p {
        StepOld(w0, w, u, cur, child, p, f, r);
        assert FrameOf(w.space, child, q) != FrameOf(w.space, child, r);
      }
    }
  }

  lemma StepTables(w0: World, w: World, u: World, cur: nat, child: nat, p: int, f: nat)
    requires StepContext(w0, w, u, cur, child, p, f)
    ensures OthersKeep(w0.space, u.space, child)
  {
    forall e | e in w0.space.dirs && e != child
      ensures KeepsTables(w0.space, u.space, e)
    {
      assert KeepsTables(w0.space, w.space, e) && KeepsTables(w.space, u.space, e);
    }
  }

  /** One page more. */
  lemma CloneStep(w0: World, w: World, u: World, cur: nat, child: nat, p: int, f: nat, next: int)
    requires w in Cloned(w0, cur, child, p) && Backed(w0, cur) && p < PAGES && Has(w.space, cur, p) && u in Copies(w, cur, child, p, f)
    requires next == p + 1
    ensures u in Cloned(w0, cur, child, next)
  {
    StepPair(w0, w, u, cur, child, p, f);
    StepOthers(w0, w, u, cur, child, p, f);
    StepNewFrames(w0, w, u, cur, child, p, f, next);
    StepOneEach(w0, w, u, cur, child, p, f, next);
    StepTables(w0, w, u, cur, child, p, f);
    StepKept(w0, w, u, cur, child, p, f);
    forall q | KSTACK_PAGE <= q < PAGES
      ensures q < next ==> Copied(w0, u, cur, child, q)
      ensures q >= next ==> !Has(u.space, child, q)
    {
      StepCopied(w0, w, u, cur, child, p, f, q);
    }
  }

  lemma StepKept(w0: World, w: World, u: World, cur: nat, child: nat, p: int, f: nat)
    requires StepContext(w0, w, u, cur, child, p, f)
    ensures OldFramesKept(w0, u)
  {
  }

  // ---------------------------------------------------------------- linking the kernel tables

  /** First loop of `clone_page_dir`: directory entries 0 .. 62 are shared. */
  function Shared(s: Space, cur: nat, child: nat): Space
    requires ShapeOk(s, cur) && ShapeOk(s, child)
  {
    s.(dirs := s.dirs[child := Dir(s.dirs[cur].tables[..SHARED] + s.dirs[child].tables[SHARED..],
                                  s.dirs[cur].pdes[..SHARED] + s.dirs[child].pdes[SHARED..])])
  }

  /** A directory just made by `create_page_dir`. */
  ghost predicate Blank(s: Space, child: nat) {
    && child in s.dirs && ShapeOk(s, child)
    && forall i :: 0 <= i < 1024 ==> s.dirs[child].tables[i] == 0
  }

  lemma SharedShape(s: Space, cur: nat, child: nat)
    requires Pair(s, cur, child)
    ensures Shaped(Shared(s, cur, child)) && Shared(s, cur, child).dirs.Keys == s.dirs.Keys
  {
    var u := Shared(s, cur, child);
    forall e | e in u.dirs
      ensures ShapeOk(u, e)
    {
      assert ShapeOk(s, e);
    }
  }

  lemma SharedPdes(s: Space, cur: nat, child: nat)
    requires Pair(s, cur, child)
    ensures PdesOk(Shared(s, cur, child))
  {
    var u := Shared(s, cur, child);
    forall e, i | e in u.dirs && 0 <= i < 1024 && ShapeOk(u, e)
      ensures u.dirs[e].pdes[i] & PF_PRES != 0 <==> u.dirs[e].tables[i] != 0
    {
      var o := if e == child && i < SHARED then cur else e;
      assert ShapeOk(s, o) && (s.dirs[o].pdes[i] & PF_PRES != 0 <==> s.dirs[o].tables[i] != 0);
    }
  }

  lemma SharedOwned(s: Space, cur: nat, child: nat)
    requires Pair(s, cur, child)
    ensures Owned(Shared(s, cur, child))
  {
    var u := Shared(s, cur, child);
    forall a, i, b, j | a in u.dirs && b in u.dirs && ShapeOk(u, a) && ShapeOk(u, b) && 0 <= i < 1024 && 0 <= j < 1024 &&
        u.dirs[a].tables[i] == u.dirs[b].tables[j] != 0
      ensures i == j && (i < SHARED || a == b)
    {
      var a', b' := if a == child && i < SHARED then cur else a, if b == child && j < SHARED then cur else b;
      assert ShapeOk(s, a') && ShapeOk(s, b');
      assert s.dirs[a'].tables[i] == s.dirs[b'].tables[j] != 0;
    }
  }

  /** Linking touches the new directory only, so the window stays where it was. */
  lemma SharedSees(s: Space, win: nat, cur: nat, child: nat)
    requires Sees(s, win, cur, child) && Blank(s, child)
    ensures Sees(Shared(s, cur, child), win, cur, child)
  {
    SharedShape(s, cur, child);
    SharedPdes(s, cur, child);
    SharedOwned(s, cur, child);
    var u := Shared(s, cur, child);
    assert ShapeOk(u, cur) && ShapeOk(u, child) && ShapeOk(u, win);
    assert Lookup(u, win, 0) == Lookup(s, win, 0);
  }

  /** After linking, nothing above the border is mapped in the child and every other page is as before. */
  lemma CloneStart(w: World, cur: nat, child: nat)
    requires Pair(w.space, cur, child) && Blank(w.space, child)
    ensures var w0 := w.(space := Shared(w.space, cur, child)); w0 in Cloned(w0, cur, child, KSTACK_PAGE)
    ensures var u := Shared(w.space, cur, child);
            && u.dirs[child].tables[..SHARED] == w.space.dirs[cur].tables[..SHARED] == u.dirs[cur].tables[..SHARED]
            && u.dirs[child].pdes[..SHARED] == w.space.dirs[cur].pdes[..SHARED] == u.dirs[cur].pdes[..SHARED]
            && forall e, q {:trigger Lookup(u, e, q)} :: e in u.dirs && e != child && 0 <= q < PAGES ==>
                 ShapeOk(u, e) && ShapeOk(w.space, e) && Lookup(u, e, q) == Lookup(w.space, e, q)
  {
    SharedShape(w.space, cur, child);
    SharedPdes(w.space, cur, child);
    SharedOwned(w.space, cur, child);
    var u := Shared(w.space, cur, child);
    assert ShapeOk(u, cur) && ShapeOk(u, child);
    assert ShapeOk(w.space, cur);
    forall q | KSTACK_PAGE <= q < PAGES
      ensures !Has(u, child, q)
    {
      assert u.dirs[child].tables[q / 1024] == w.space.dirs[child].tables[q / 1024];
      NoFlags();
    }
    forall e | e in u.dirs && e != child
      ensures ShapeOk(u, e) && ShapeOk(w.space, e)
    {
    }
  }

  lemma NoFlags()
    ensures !Present(NO_ENTRY)
  {
  }

  // ---------------------------------------------------------------- tearing an address space down

  /** One page of `task_destroy`: the frame is free again and the page unmapped. */
  function FreePage(w: World, d: nat, p: int, at: nat): World
    requires Shaped(w.space) && d in w.space.dirs && KSTACK_PAGE <= p < PAGES
  {
    World(Mapped(w.space, d, p, 0, 0, at), w.used - {FrameOf(w.space, d, p)}, w.mem)
  }

  /** A page has been unmapped and its frame is free. */
  ghost function Removed(w: World, d: nat, p: int): iset<World> {
    iset u: World |
      && PageSet(w.space, u.space, d, p, NO_ENTRY) && ShapeOk(w.space, d) && u.used == w.used - {FrameOf(w.space, d, p)} && u.mem == w.mem
  }

  lemma PageRemoved(w: World, d: nat, p: int, at: nat)
    requires Valid(w.space) && d in w.space.dirs && KSTACK_PAGE <= p < PAGES && at != 0 && at !in w.space.tabs
    ensures FreePage(w, d, p, at) in Removed(w, d, p)
    ensures ShapeOk(w.space, d) && (Has(w.space, d, p) ==> SameTree(w.space, FreePage(w, d, p, at).space))
  {
    var u := FreePage(w, d, p, at);
    FreeLookup(w, d, p, at, d, p);
    forall e, q | e in w.space.dirs && 0 <= q < PAGES
      ensures SetAt(w.space, u.space, d, p, NO_ENTRY, e, q)
    {
      FreeLookup(w, d, p, at, e, q);
    }
    if Has(w.space, d, p) {
      HasTable(w.space, d, p);
      SameTables(w.space, d, p, 0, 0, at);
    }
  }

  /** Pages of d from the kernel stack up to p are gone, with the frames that backed them; nothing else is. */
  ghost function Torn(w0: World, d: nat, p: int): iset<World> {
    iset w: World |
      && Valid(w0.space) && Valid(w.space) && d in w0.space.dirs && ShapeOk(w0.space, d) && KSTACK_PAGE <= p <= PAGES
      && SameTree(w0.space, w.space) && w.mem == w0.mem && TornPages(w0, w, d, p)
      && forall f {:trigger f in w.used} :: f in w.used <==> f in w0.used && !BacksBelow(w0.space, d, f, p)
  }

  ghost predicate TornPages(w0: World, w: World, d: nat, p: int)
    requires ShapeOk(w0.space, d)
  {
    forall e, q {:trigger TornAt(w0, w, d, p, e, q)} {:trigger Lookup(w.space, e, q)} ::
      e in w0.space.dirs && 0 <= q < PAGES ==> TornAt(w0, w, d, p, e, q)
  }

  ghost predicate TornAt(w0: World, w: World, d: nat, p: int, e: nat, q: int)
    requires ShapeOk(w0.space, d) && 0 <= q < PAGES
  {
    && ShapeOk(w.space, e) && ShapeOk(w0.space, e)
    && Lookup(w.space, e, q) == if e == d && KSTACK_PAGE <= q < p && Has(w0.space, d, q) then NO_ENTRY else Lookup(w0.space, e, q)
  }

  lemma TearStart(w: World, d: nat)
    requires Valid(w.space) && d in w.space.dirs
    ensures w in Torn(w, d, KSTACK_PAGE)
  {
    forall e | e in w.space.dirs
      ensures ShapeOk(w.space, e) && KeepsTables(w.space, w.space, e)
    {
    }
  }

  /** A page that is absent backs nothing. */
  lemma BacksSame(s: Space, d: nat, p: int, next: int, f: nat)
    requires ShapeOk(s, d) && KSTACK_PAGE <= p < PAGES && next == p + 1
    ensures BacksBelow(s, d, f, next) <==> BacksBelow(s, d, f, p) || (Has(s, d, p) && FrameOf(s, d, p) == f)
  {
    if BacksBelow(s, d, f, next) {
      var q :| KSTACK_PAGE <= q < next && Has(s, d, q) && FrameOf(s, d, q) == f;
      assert FrameOf(s, d, q) == f;
    }
    if BacksBelow(s, d, f, p) {
      var q :| KSTACK_PAGE <= q < p && Has(s, d, q) && FrameOf(s, d, q) == f;
      assert FrameOf(s, d, q) == f;
    }
    assert FrameOf(s, d, p) == Lookup(s, d, p).frame;
  }

  lemma TearSkip(w0: World, w: World, d: nat, p: int, next: int)
    requires w in Torn(w0, d, p) && p < PAGES && ShapeOk(w.space, d) && !Has(w.space, d, p) && next == p + 1
    ensures w in Torn(w0, d, next)
  {
    assert TornAt(w0, w, d, p, d, p) && !Has(w0.space, d, p);
    forall e, q | e in w0.space.dirs && 0 <= q < PAGES
      ensures TornAt(w0, w, d, next, e, q)
    {
      assert TornAt(w0, w, d, p, e, q);
    }
    forall f: nat
      ensures BacksBelow(w0.space, d, f, next) <==> BacksBelow(w0.space, d, f, p)
    {
      BacksSame(w0.space, d, p, next, f);
    }
  }

  lemma TearPages(w0: World, w: World, u: World, d: nat, p: int, next: int)
    requires w in Torn(w0, d, p) && p < PAGES && ShapeOk(w.space, d) && Has(w.space, d, p) && u in Removed(w, d, p) && next == p + 1
    ensures TornPages(w0, u, d, next)
  {
    assert TornAt(w0, w, d, p, d, p) && Has(w0.space, d, p);
    forall e, q | e in w0.space.dirs && 0 <= q < PAGES
      ensures TornAt(w0, u, d, next, e, q)
    {
      assert SetAt(w.space, u.space, d, p, NO_ENTRY, e, q) && TornAt(w0, w, d, p, e, q);
    }
  }

  lemma TearFrames(w0: World, w: World, u: World, d: nat, p: int, next: int, f: nat)
    requires w in Torn(w0, d, p) && p < PAGES && ShapeOk(w.space, d) && Has(w.space, d, p) && u in Removed(w, d, p) && next == p + 1
    ensures f in u.used <==> f in w0.used && !BacksBelow(w0.space, d, f, next)
  {
    assert TornAt(w0, w, d, p, d, p);
    BacksSame(w0.space, d, p, next, f);
  }

  /** One page more. */
  lemma TearStep(w0: World, w: World, u: World, d: nat, p: int, next: int)
    requires w in Torn(w0, d, p) && p < PAGES && ShapeOk(w.space, d) && Has(w.space, d, p) && next == p + 1
    requires u in Removed(w, d, p) && SameTree(w.space, u.space)
    ensures u in Torn(w0, d, next)
  {
    TreeTwice(w0.space, w.space, u.space);
    TearPages(w0, w, u, d, p, next);
    forall f: nat
      ensures f in u.used <==> f in w0.used && !BacksBelow(w0.space, d, f, next)
    {
      TearFrames(w0, w, u, d, p, next, f);
    }
  }

  lemma HasTable(s: Space, d: nat, p: int)
    requires ShapeOk(s, d) && 0 <= p < PAGES && Has(s, d, p)
    ensures s.dirs[d].tables[p / 1024] != 0
  {
    NoFlags();
  }

  /** The addresses `clear_page_dir` has freed when it comes to index i: the tables from 63 up. */
  function OwnTables(s: Space, d: nat, i: int): set<nat>
    requires ShapeOk(s, d) && i <= 1024
  {
    set j | SHARED <= j < i && s.dirs[d].tables[j] != 0 :: s.dirs[d].tables[j]
  }

  function Clearing(s: Space, d: nat, i: int): Space
    requires ShapeOk(s, d) && i <= 1024
  {
    Space(s.tabs - OwnTables(s, d, i), s.dirs - {d})
  }

  /** `clear_page_dir` and the release of the directory itself. */
  function Cleared(s: Space, d: nat): Space
    requires ShapeOk(s, d)
  {
    Clearing(s, d, 1024)
  }

  /** Only tables that no other directory holds are freed, so every other address space is whole and unchanged. */
  lemma ClearKeeps(s: Space, d: nat, i: int)
    requires Valid(s) && d in s.dirs && i <= 1024
    ensures ShapeOk(s, d) && Valid(Clearing(s, d, i))
    ensures forall e, q {:trigger Lookup(Clearing(s, d, i), e, q)} :: e in s.dirs && e != d && 0 <= q < PAGES ==>
              ShapeOk(Clearing(s, d, i), e) && ShapeOk(s, e) && Lookup(Clearing(s, d, i), e, q) == Lookup(s, e, q)
  {
    assert ShapeOk(s, d);
    var u := Clearing(s, d, i);
    forall e | e in u.dirs
      ensures ShapeOk(u, e) && ShapeOk(s, e)
      ensures forall j :: 0 <= j < 1024 ==> s.dirs[e].tables[j] !in OwnTables(s, d, i)
    {
      assert ShapeOk(s, e);
    }
    ClearOwned(s, d, i);
  }

  lemma ClearOwned(s: Space, d: nat, n: int)
    requires Valid(s) && ShapeOk(s, d) && n <= 1024
    ensures Owned(Clearing(s, d, n)) && PdesOk(Clearing(s, d, n))
  {
    var u := Clearing(s, d, n);
    forall a, i, b, j | a in u.dirs && b in u.dirs && ShapeOk(u, a) && ShapeOk(u, b) && 0 <= i < 1024 && 0 <= j < 1024 &&
        u.dirs[a].tables[i] == u.dirs[b].tables[j] != 0
      ensures i == j && (i < SHARED || a == b)
    {
      assert ShapeOk(s, a) && ShapeOk(s, b) && s.dirs[a].tables[i] == s.dirs[b].tables[j];
    }
    forall a, i | a in u.dirs && ShapeOk(u, a) && 0 <= i < 1024
      ensures u.dirs[a].pdes[i] & PF_PRES != 0 <==> u.dirs[a].tables[i] != 0
    {
      assert ShapeOk(s, a) && (s.dirs[a].pdes[i] & PF_PRES != 0 <==> s.dirs[a].tables[i] != 0);
    }
  }

  // ---------------------------------------------------------------- fork, then tear down

  /** Unmapping the pages of a freshly forked child gives back exactly the frames the fork took. */
  lemma ForkThenTearFrames(w0: World, w1: World, w2: World, cur: nat, child: nat)
    requires w1 in Cloned(w0, cur, child, PAGES) && w2 in Torn(w1, child, PAGES)
    ensures w2.used == w0.used
    ensures forall f :: f in w0.used && f in w0.mem ==> f in w2.mem && w2.mem[f] == w0.mem[f]
  {
    forall q | KSTACK_PAGE <= q < PAGES && Has(w1.space, child, q)
      ensures FrameOf(w1.space, child, q) !in w0.used
    {
      assert Copied(w0, w1, cur, child, q);
    }
    forall f: nat
      ensures f in w2.used <==> f in w0.used
    {
      if f in w1.used && f !in w0.used {
        assert BacksBelow(w1.space, child, f, PAGES);
      }
    }
  }

  // ---------------------------------------------------------------- ownership of frames

  /** Every present page from the kernel stack up is backed by a frame in use, and by no other page of any
      address space. */
  ghost predicate Exclusive(w: World) {
    && Shaped(w.space)
    && (forall d, q {:trigger Has(w.space, d, q)} :: d in w.space.dirs && KSTACK_PAGE <= q < PAGES && Has(w.space, d, q) ==>
          FrameOf(w.space, d, q) in w.used)
    && (forall d, q, e, r {:trigger FrameOf(w.space, d, q), FrameOf(w.space, e, r)}
          | d in w.space.dirs && e in w.space.dirs && KSTACK_PAGE <= q < PAGES && KSTACK_PAGE <= r < PAGES
            && Has(w.space, d, q) && Has(w.space, e, r) && FrameOf(w.space, d, q) == FrameOf(w.space, e, r) ::
          d == e && q == r)
  }

  /** A page of the cloned picture is an old page of another address space or a new page of the child. */
  lemma ClonedPage(w0: World, w: World, cur: nat, child: nat, e: nat, q: int)
    requires w in Cloned(w0, cur, child, PAGES) && e in w.space.dirs && KSTACK_PAGE <= q < PAGES && Exclusive(w0)
    requires Has(w.space, e, q)
    ensures FrameOf(w.space, e, q) in w.used
    ensures e == child ==> FrameOf(w.space, e, q) !in w0.used
    ensures e != child ==> Lookup(w.space, e, q) == Lookup(w0.space, e, q) && FrameOf(w.space, e, q) in w0.used
  {
    if e == child {
      assert Copied(w0, w, cur, child, q);
    } else {
      assert Lookup(w.space, e, q) == Lookup(w0.space, e, q);
      assert Has(w0.space, e, q);
    }
  }

  /** Fork keeps ownership exclusive. */
  lemma CloneExclusive(w0: World, w: World, cur: nat, child: nat)
    requires w in Cloned(w0, cur, child, PAGES) && Exclusive(w0)
    ensures Exclusive(w)
  {
    forall d, q | d in w.space.dirs && KSTACK_PAGE <= q < PAGES && Has(w.space, d, q)
      ensures FrameOf(w.space, d, q) in w.used
    {
      ClonedPage(w0, w, cur, child, d, q);
    }
    forall d, q, e, r | d in w.space.dirs && e in w.space.dirs && KSTACK_PAGE <= q < PAGES && KSTACK_PAGE <= r < PAGES
        && Has(w.space, d, q) && Has(w.space, e, r) && FrameOf(w.space, d, q) == FrameOf(w.space, e, r)
      ensures d == e && q == r
    {
      ClonedPair(w0, w, cur, child, d, q, e, r);
    }
  }

  lemma ClonedPair(w0: World, w: World, cur: nat, child: nat, d: nat, q: int, e: nat, r: int)
    requires w in Cloned(w0, cur, child, PAGES) && Exclusive(w0) && d in w.space.dirs && e in w.space.dirs
    requires KSTACK_PAGE <= q < PAGES && KSTACK_PAGE <= r < PAGES
    requires Has(w.space, d, q) && Has(w.space, e, r) && FrameOf(w.space, d, q) == FrameOf(w.space, e, r)
    ensures d == e && q == r
  {
    ClonedPage(w0, w, cur, child, d, q);
    ClonedPage(w0, w, cur, child, e, r);
    if d != child && e != child {
      assert FrameOf(w0.space, d, q) == FrameOf(w0.space, e, r);
    }
  }

  /** Tearing an address space down keeps ownership exclusive. */
  lemma TearExclusive(w0: World, w: World, d: nat, p: int)
    requires w in Torn(w0, d, p) && Exclusive(w0)
    ensures Exclusive(w)
  {
    NoFlags();
    forall e, q | e in w.space.dirs && KSTACK_PAGE <= q < PAGES && Has(w.space, e, q)
      ensures Lookup(w.space, e, q) == Lookup(w0.space, e, q) && FrameOf(w.space, e, q) in w.used
    {
      assert Lookup(w.space, e, q) == Lookup(w0.space, e, q) && Has(w0.space, e, q);
      TornNotBacking(w0, w, d, p, e, q);
      assert FrameOf(w.space, e, q) in w.used <==>
             FrameOf(w.space, e, q) in w0.used && !BacksBelow(w0.space, d, FrameOf(w.space, e, q), p);
    }
    forall a, q, b, r | a in w.space.dirs && b in w.space.dirs && KSTACK_PAGE <= q < PAGES && KSTACK_PAGE <= r < PAGES
        && Has(w.space, a, q) && Has(w.space, b, r) && FrameOf(w.space, a, q) == FrameOf(w.space, b, r)
      ensures a == b && q == r
    {
      assert Lookup(w.space, a, q) == Lookup(w0.space, a, q) && Lookup(w.space, b, r) == Lookup(w0.space, b, r);
      assert FrameOf(w0.space, a, q) == FrameOf(w0.space, b, r);
    }
  }

  lemma TornNotBacking(w0: World, w: World, d: nat, p: int, e: nat, q: int)
    requires w in Torn(w0, d, p) && Exclusive(w0) && e in w.space.dirs && KSTACK_PAGE <= q < PAGES && Has(w.space, e, q)
    requires Lookup(w.space, e, q) == Lookup(w0.space, e, q)
    ensures FrameOf(w0.space, e, q) in w0.used && !BacksBelow(w0.space, d, FrameOf(w0.space, e, q), p)
  {
    NoFlags();
    assert Has(w0.space, e, q);
    forall r | KSTACK_PAGE <= r < p && Has(w0.space, d, r)
      ensures FrameOf(w0.space, d, r) != FrameOf(w0.space, e, q)
    {
    }
  }

  /** Linking the kernel tables into an empty directory adds no page from the kernel stack up. */
  lemma SharedExclusive(w: World, cur: nat, child: nat)
    requires Pair(w.space, cur, child) && Blank(w.space, child) && Exclusive(w)
    ensures Exclusive(w.(space := Shared(w.space, cur, child)))
  {
    CloneStart(w, cur, child);
    var u := Shared(w.space, cur, child);
    forall d, q | d in u.dirs && KSTACK_PAGE <= q < PAGES && Has(u, d, q)
      ensures d != child && Lookup(u, d, q) == Lookup(w.space, d, q) && FrameOf(u, d, q) in w.used
    {
      assert Lookup(u, d, q) == Lookup(w.space, d, q) && Has(w.space, d, q);
    }
    forall d, q, e, r | d in u.dirs && e in u.dirs && KSTACK_PAGE <= q < PAGES && KSTACK_PAGE <= r < PAGES
        && Has(u, d, q) && Has(u, e, r) && FrameOf(u, d, q) == FrameOf(u, e, r)
      ensures d == e && q == r
    {
      assert FrameOf(w.space, d, q) == FrameOf(w.space, e, r);
    }
  }

  /** Releasing a directory and its tables keeps ownership exclusive among the rest. */
  lemma ClearExclusive(w: World, d: nat)
    requires Valid(w.space) && d in w.space.dirs && ShapeOk(w.space, d) && Exclusive(w)
    ensures Exclusive(w.(space := Cleared(w.space, d)))
  {
    ClearKeeps(w.space, d, 1024);
    var u := Cleared(w.space, d);
    forall e, q | e in u.dirs && KSTACK_PAGE <= q < PAGES && Has(u, e, q)
      ensures Lookup(u, e, q) == Lookup(w.space, e, q) && FrameOf(u, e, q) in w.used
    {
      assert Lookup(u, e, q) == Lookup(w.space, e, q) && Has(w.space, e, q);
    }
    forall a, q, b, r | a in u.dirs && b in u.dirs && KSTACK_PAGE <= q < PAGES && KSTACK_PAGE <= r < PAGES
        && Has(u, a, q) && Has(u, b, r) && FrameOf(u, a, q) == FrameOf(u, b, r)
      ensures a == b && q == r
    {
      assert FrameOf(w.space, a, q) == FrameOf(w.space, b, r);
    }
  }

  // ---------------------------------------------------------------- single pages of the running address space

  /** `uvm_page_alloc`: a fresh frame at an absent page. */
  function AddPage(w: World, d: nat, p: int, f: nat, flags: bv32, at: nat, content: Page): World
    requires Shaped(w.space) && d in w.space.dirs && 0 <= p < PAGES
  {
    World(Mapped(w.space, d, p, f, flags, at), w.used + {f}, w.mem[f := content])
  }

  lemma AddLookup(w: World, d: nat, p: int, f: nat, flags: bv32, at: nat, content: Page, e: nat, q: int)
    requires Valid(w.space) && d in w.space.dirs && e in w.space.dirs && KSTACK_PAGE <= p < PAGES && 0 <= q < PAGES
    requires at != 0 && at !in w.space.tabs
    ensures var u := AddPage(w, d, p, f, flags, at, content).space;
            && Valid(u) && u.dirs.Keys == w.space.dirs.Keys && ShapeOk(u, e) && ShapeOk(w.space, e)
            && Lookup(u, e, q) == if e == d && q == p then Entry(flags & ENTRY_FLAGS, f) else Lookup(w.space, e, q)
  {
    assert ShapeOk(w.space, d);
    MapValid(w.space, d, MapCall(p, f, flags, at));
    MapRefines(w.space, d, p, f, flags, at, e, q);
    if e != d && q == p {
      assert !SamePlace(w.space, d, p, e, q);
    }
  }

  lemma AddExclusive(w: World, d: nat, p: int, f: nat, flags: bv32, at: nat, content: Page)
    requires Exclusive(w) && Valid(w.space) && d in w.space.dirs && KSTACK_PAGE <= p < PAGES
    requires at != 0 && at !in w.space.tabs && f !in w.used
    ensures Exclusive(AddPage(w, d, p, f, flags, at, content))
  {
    var u := AddPage(w, d, p, f, flags, at, content);
    AddLookup(w, d, p, f, flags, at, content, d, p);
    forall e, q | e in u.space.dirs && KSTACK_PAGE <= q < PAGES && Has(u.space, e, q)
      ensures FrameOf(u.space, e, q) in u.used
    {
      AddLookup(w, d, p, f, flags, at, content, e, q);
      assert !(e == d && q == p) ==> Has(w.space, e, q);
    }
    forall a, q, b, r | a in u.space.dirs && b in u.space.dirs && KSTACK_PAGE <= q < PAGES && KSTACK_PAGE <= r < PAGES
        && Has(u.space, a, q) && Has(u.space, b, r) && FrameOf(u.space, a, q) == FrameOf(u.space, b, r)
      ensures a == b && q == r
    {
      AddPair(w, d, p, f, flags, at, content, a, q, b, r);
    }
  }

  lemma AddPair(w: World, d: nat, p: int, f: nat, flags: bv32, at: nat, content: Page, a: nat, q: int, b: nat, r: int)
    requires Exclusive(w) && Valid(w.space) && d in w.space.dirs && KSTACK_PAGE <= p < PAGES
    requires at != 0 && at !in w.space.tabs && f !in w.used
    requires a in w.space.dirs && b in w.space.dirs && KSTACK_PAGE <= q < PAGES && KSTACK_PAGE <= r < PAGES
    ensures var u := AddPage(w, d, p, f, flags, at, content).space;
            && Valid(u) && ShapeOk(u, a) && ShapeOk(u, b)
            && (Has(u, a, q) && Has(u, b, r) && FrameOf(u, a, q) == FrameOf(u, b, r) ==> a == b && q == r)
  {
    AddLookup(w, d, p, f, flags, at, content, a, q);
    AddLookup(w, d, p, f, flags, at, content, b, r);
    assert Has(w.space, a, q) ==> FrameOf(w.space, a, q) in w.used;
    assert Has(w.space, b, r) ==> FrameOf(w.space, b, r) in w.used;
    assert FrameOf(w.space, a, q) == Lookup(w.space, a, q).frame && FrameOf(w.space, b, r) == Lookup(w.space, b, r).frame;
  }

  /** `uvm_page_free` on page p. */
  lemma FreeLookup(w: World, d: nat, p: int, at: nat, e: nat, q: int)
    requires Valid(w.space) && d in w.space.dirs && e in w.space.dirs && KSTACK_PAGE <= p < PAGES && 0 <= q < PAGES
    requires at != 0 && at !in w.space.tabs
    ensures var u := FreePage(w, d, p, at).space;
            && Valid(u) && u.dirs.Keys == w.space.dirs.Keys && ShapeOk(u, e) && ShapeOk(w.space, e)
            && Lookup(u, e, q) == if e == d && q == p then NO_ENTRY else Lookup(w.space, e, q)
  {
    AddLookup(w, d, p, 0, 0, at, [], e, q);
    assert (0 as bv32) & ENTRY_FLAGS == 0;
  }

  lemma FreeExclusive(w: World, d: nat, p: int, at: nat)
    requires Exclusive(w) && Valid(w.space) && d in w.space.dirs && KSTACK_PAGE <= p < PAGES && Has(w.space, d, p)
    requires at != 0 && at !in w.space.tabs
    ensures Exclusive(FreePage(w, d, p, at))
  {
    NoFlags();
    var u := FreePage(w, d, p, at);
    FreeLookup(w, d, p, at, d, p);
    forall e, q | e in u.space.dirs && KSTACK_PAGE <= q < PAGES && Has(u.space, e, q)
      ensures Lookup(u.space, e, q) == Lookup(w.space, e, q) && FrameOf(u.space, e, q) in u.used
    {
      FreeLookup(w, d, p, at, e, q);
      assert Has(w.space, e, q) && FrameOf(w.space, e, q) == FrameOf(u.space, e, q);
      assert FrameOf(w.space, d, p) == Lookup(w.space, d, p).frame;
    }
    forall a, q, b, r | a in u.space.dirs && b in u.space.dirs && KSTACK_PAGE <= q < PAGES && KSTACK_PAGE <= r < PAGES
        && Has(u.space, a, q) && Has(u.space, b, r) && FrameOf(u.space, a, q) == FrameOf(u.space, b, r)
      ensures a == b && q == r
    {
      assert Lookup(u.space, a, q) == Lookup(w.space, a, q) && Lookup(u.space, b, r) == Lookup(w.space, b, r);
      assert FrameOf(w.space, a, q) == FrameOf(w.space, b, r);
    }
  }
}
