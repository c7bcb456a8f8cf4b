/** What all address spaces have in common, and how the first one and each further one come to be. */
module PagingKernel {
  import opened PagingSpec
  import opened PagingClone

  // ---------------------------------------------------------------- shared kernel tables

  /** Directory d has the kernel tables of directory k. */
  ghost predicate LinkedTo(s: Space, k: nat, d: nat) {
    && k in s.dirs && d in s.dirs && ShapeOk(s, k) && ShapeOk(s, d)
    && forall i {:trigger s.dirs[d].tables[i]} :: 0 <= i < SHARED ==> s.dirs[d].tables[i] == s.dirs[k].tables[i] != 0
  }

  /** All directories, apart perhaps from one just made, share the kernel tables. */
  ghost predicate LinkedBut(s: Space, k: nat, child: nat) {
    k in s.dirs && forall d {:trigger LinkedTo(s, k, d)} :: d in s.dirs && d != child ==> LinkedTo(s, k, d)
  }

  ghost predicate Linked(s: Space, k: nat) {
    k in s.dirs && forall d {:trigger LinkedTo(s, k, d)} :: d in s.dirs ==> LinkedTo(s, k, d)
  }

  /** The kernel tables of e are what they were. */
  ghost predicate KernelKept(s0: Space, s: Space, e: nat) {
    && e in s0.dirs && e in s.dirs && ShapeOk(s0, e) && ShapeOk(s, e)
    && forall i {:trigger s.dirs[e].tables[i]} :: 0 <= i < SHARED ==> s.dirs[e].tables[i] == s0.dirs[e].tables[i]
  }

  lemma LinkKept(s0: Space, s: Space, k: nat, d: nat)
    requires LinkedTo(s0, k, d) && KernelKept(s0, s, k) && KernelKept(s0, s, d)
    ensures LinkedTo(s, k, d)
  {
    forall i | 0 <= i < SHARED
      ensures s.dirs[d].tables[i] == s.dirs[k].tables[i] != 0
    {
      assert s0.dirs[d].tables[i] == s0.dirs[k].tables[i] != 0;
      assert s.dirs[k].tables[i] == s0.dirs[k].tables[i];
    }
  }

  lemma AllLinked(s0: Space, s: Space, k: nat)
    requires Linked(s0, k) && k in s.dirs && s.dirs.Keys <= s0.dirs.Keys
    requires forall e {:trigger KernelKept(s0, s, e)} :: e in s.dirs ==> KernelKept(s0, s, e)
    ensures Linked(s, k)
  {
    forall d | d in s.dirs
      ensures LinkedTo(s, k, d)
    {
      assert KernelKept(s0, s, k) && KernelKept(s0, s, d) && LinkedTo(s0, k, d);
      LinkKept(s0, s, k, d);
    }
  }

  /** Mapping a page from the kernel stack up leaves the kernel tables alone. */
  lemma MapLinked(s: Space, k: nat, d: nat, p: int, frame: nat, flags: bv32, at: nat)
    requires Valid(s) && Linked(s, k) && d in s.dirs && KSTACK_PAGE <= p < PAGES && at != 0 && at !in s.tabs
    ensures Linked(Mapped(s, d, p, frame, flags, at), k)
  {
    var u := Mapped(s, d, p, frame, flags, at);
    MapShaped(s, d, p, frame, flags, at);
    assert u.dirs.Keys == s.dirs.Keys;
    forall e | e in u.dirs
      ensures KernelKept(s, u, e)
    {
      MapKernelKept(s, d, p, frame, flags, at, e);
    }
    AllLinked(s, u, k);
  }

  lemma MapKernelKept(s: Space, d: nat, p: int, frame: nat, flags: bv32, at: nat, e: nat)
    requires Valid(s) && d in s.dirs && e in s.dirs && KSTACK_PAGE <= p < PAGES && Shaped(Mapped(s, d, p, frame, flags, at))
    ensures KernelKept(s, Mapped(s, d, p, frame, flags, at), e)
  {
    assert ShapeOk(s, e);
    assert p / 1024 >= SHARED;
  }

  /** Tearing down a directory and releasing it leaves the others linked. */
  lemma DestroyLinked(w0: World, w: World, k: nat, d: nat)
    requires w in Torn(w0, d, PAGES) && Linked(w0.space, k) && d != k
    ensures Linked(Cleared(w.space, d), k)
  {
    ClearKeeps(w.space, d, 1024);
    var u := Cleared(w.space, d);
    assert w0.space.dirs.Keys == w.space.dirs.Keys;
    forall e | e in u.dirs
      ensures KernelKept(w0.space, u, e)
    {
      assert ShapeOk(w0.space, e) && KeepsTables(w0.space, w.space, e);
    }
    AllLinked(w0.space, u, k);
  }

  /** Cloning links the new directory. */
  lemma CloneLinked(w: World, w1: World, k: nat, cur: nat, child: nat)
    requires Pair(w.space, cur, child) && Blank(w.space, child) && LinkedBut(w.space, k, child) && k != child
    requires w1 in Cloned(w.(space := Shared(w.space, cur, child)), cur, child, PAGES)
    ensures Linked(w1.space, k)
  {
    var s, s0, u := w.space, Shared(w.space, cur, child), w1.space;
    forall d | d in u.dirs
      ensures LinkedTo(u, k, d)
    {
      if d == child {
        CloneChildLinked(w, w1, k, cur, child);
      } else {
        CloneOtherLinked(w, w1, k, cur, child, d);
      }
    }
  }

  lemma CloneOtherLinked(w: World, w1: World, k: nat, cur: nat, child: nat, d: nat)
    requires Pair(w.space, cur, child) && LinkedBut(w.space, k, child) && k != child && d != child && d in w1.space.dirs
    requires w1 in Cloned(w.(space := Shared(w.space, cur, child)), cur, child, PAGES)
    ensures LinkedTo(w1.space, k, d)
  {
    var s, s0, u := w.space, Shared(w.space, cur, child), w1.space;
    assert KeepsTables(s0, u, d) && KeepsTables(s0, u, k);
    assert ShapeOk(u, d) && ShapeOk(u, k) && ShapeOk(s, d) && ShapeOk(s, k);
    assert LinkedTo(s, k, d);
    LinkKept(s, u, k, d);
  }

  lemma CloneChildLinked(w: World, w1: World, k: nat, cur: nat, child: nat)
    requires Pair(w.space, cur, child) && LinkedBut(w.space, k, child) && k != child
    requires w1 in Cloned(w.(space := Shared(w.space, cur, child)), cur, child, PAGES)
    ensures LinkedTo(w1.space, k, child)
  {
    var s0, u := Shared(w.space, cur, child), w1.space;
    CloneOtherLinked(w, w1, k, cur, child, cur);
    assert KeepsTables(s0, u, cur);
    forall i | 0 <= i < SHARED
      ensures u.dirs[child].tables[i] == u.dirs[k].tables[i] != 0
    {
      assert u.dirs[child].tables[i] == u.dirs[child].tables[..SHARED][i] == s0.dirs[child].tables[..SHARED][i];
      assert s0.dirs[child].tables[i] == s0.dirs[cur].tables[i] == u.dirs[cur].tables[i];
    }
  }

  // ---------------------------------------------------------------- a new directory

  /** `create_page_dir`. */
  function WithDir(s: Space, child: nat): Space { s.(dirs := s.dirs[child := EmptyDir()]) }

  function EmptyDir(): Dir { Dir(seq(1024, _ => 0), seq(1024, _ => 0)) }

  lemma NewDirShape(s: Space, child: nat)
    requires Shaped(s) && child !in s.dirs
    ensures Shaped(WithDir(s, child)) && Blank(WithDir(s, child), child)
    ensures forall e, q {:trigger Lookup(WithDir(s, child), e, q)} :: e in s.dirs && 0 <= q < PAGES ==>
              ShapeOk(WithDir(s, child), e) && ShapeOk(s, e) && Lookup(WithDir(s, child), e, q) == Lookup(s, e, q)
  {
    var u := WithDir(s, child);
    forall e | e in u.dirs
      ensures ShapeOk(u, e)
    {
      assert e != child ==> ShapeOk(s, e);
    }
  }

  /** A new directory maps nothing and changes nothing. */
  lemma NewDir(w: World, k: nat, child: nat)
    requires Valid(w.space) && child !in w.space.dirs
    ensures var u := w.(space := WithDir(w.space, child));
            && Valid(u.space) && Blank(u.space, child)
            && (Exclusive(w) ==> Exclusive(u)) && (Linked(w.space, k) ==> LinkedBut(u.space, k, child))
  {
    NewDirShape(w.space, child);
    NewDirValid(w.space, child);
    if Exclusive(w) {
      NewDirExclusive(w, child);
    }
    if Linked(w.space, k) {
      NewDirLinked(w.space, k, child);
    }
  }

  lemma NewDirValid(s: Space, child: nat)
    requires Valid(s) && child !in s.dirs
    ensures PdesOk(WithDir(s, child)) && Owned(WithDir(s, child))
  {
    var u := WithDir(s, child);
    NoEntryBits();
    forall e, i | e in u.dirs && ShapeOk(u, e) && 0 <= i < 1024
      ensures u.dirs[e].pdes[i] & PF_PRES != 0 <==> u.dirs[e].tables[i] != 0
    {
      if e != child {
        assert ShapeOk(s, e) && (s.dirs[e].pdes[i] & PF_PRES != 0 <==> s.dirs[e].tables[i] != 0);
      }
    }
    forall a, i, b, j | a in u.dirs && b in u.dirs && ShapeOk(u, a) && ShapeOk(u, b) && 0 <= i < 1024 && 0 <= j < 1024 &&
        u.dirs[a].tables[i] == u.dirs[b].tables[j] != 0
      ensures i == j && (i < SHARED || a == b)
    {
      assert ShapeOk(s, a) && ShapeOk(s, b) && s.dirs[a].tables[i] == s.dirs[b].tables[j];
    }
  }

  lemma NoEntryBits()
    ensures (0 as bv32) & PF_PRES == 0 && (PF_PRES | PF_RW) & PF_PRES != 0
  {
  }

  lemma BlankPage(s: Space, d: nat, q: int)
    requires Blank(s, d) && 0 <= q < PAGES
    ensures Lookup(s, d, q) == NO_ENTRY && !Has(s, d, q)
  {
    NoFlags();
  }

  lemma NewDirExclusive(w: World, child: nat)
    requires Exclusive(w) && child !in w.space.dirs
    ensures Exclusive(w.(space := WithDir(w.space, child)))
  {
    NewDirShape(w.space, child);
    var s, u := w.space, WithDir(w.space, child);
    forall d, q | d in u.dirs && KSTACK_PAGE <= q < PAGES && Has(u, d, q)
      ensures d in s.dirs && Lookup(u, d, q) == Lookup(s, d, q) && FrameOf(u, d, q) in w.used
    {
      if d == child {
        BlankPage(u, child, q);
      } else {
        assert Lookup(u, d, q) == Lookup(s, d, q) && Has(s, d, q);
      }
    }
    forall a, q, b, r | a in u.dirs && b in u.dirs && KSTACK_PAGE <= q < PAGES && KSTACK_PAGE <= r < PAGES
        && Has(u, a, q) && Has(u, b, r) && FrameOf(u, a, q) == FrameOf(u, b, r)
      ensures a == b && q == r
    {
      assert FrameOf(s, a, q) == FrameOf(s, b, r);
    }
  }

  lemma NewDirLinked(s: Space, k: nat, child: nat)
    requires Shaped(s) && Linked(s, k) && child !in s.dirs
    ensures LinkedBut(WithDir(s, child), k, child)
  {
    NewDirShape(s, child);
    var u := WithDir(s, child);
    forall d | d in u.dirs && d != child
      ensures LinkedTo(u, k, d)
    {
      assert LinkedTo(s, k, d) && ShapeOk(u, d) && ShapeOk(u, k);
      LinkKept(s, u, k, d);
    }
  }

  /** The picture a clone starts from: the child's directory is there, with the kernel tables only. */
  ghost function Blanked(w: World, cur: nat, child: nat): World
    requires Shaped(w.space) && cur in w.space.dirs && child !in w.space.dirs
  {
    NewDirShape(w.space, child);
    assert ShapeOk(WithDir(w.space, child), cur) && ShapeOk(WithDir(w.space, child), child);
    w.(space := Shared(WithDir(w.space, child), cur, child))
  }

  /** A clone of cur into a new directory may use the window in k. */
  lemma SeesNew(s: Space, k: nat, cur: nat, child: nat)
    requires Valid(s) && LinkedBut(s, k, child) && Blank(s, child) && cur in s.dirs && k != child && cur != child
    requires ShapeOk(s, k) && Lookup(s, k, 0) == NO_ENTRY
    ensures Sees(s, k, cur, child)
  {
    assert LinkedTo(s, k, cur) && LinkedTo(s, k, k);
    assert s.dirs[cur].tables[0] == s.dirs[k].tables[0] != 0;
  }

  // ---------------------------------------------------------------- boot

  /** The first n kernel tables, all empty, in the only directory. */
  ghost predicate FreshTables(tabs: map<nat, Table>, dir: Dir, n: nat) {
    && |dir.tables| == 1024 == |dir.pdes| && n <= 1024
    && (forall i :: 0 <= i < n ==> dir.tables[i] != 0 && dir.tables[i] in tabs && dir.pdes[i] == 3)
    && (forall i :: n <= i < 1024 ==> dir.tables[i] == 0 && dir.pdes[i] == 0)
    && (forall i, j :: 0 <= i < j < n ==> dir.tables[i] != dir.tables[j])
    && (forall t :: t in tabs ==> t != 0 && tabs[t] == EmptyTable())
  }

  lemma OneMoreTable(tabs: map<nat, Table>, dir: Dir, n: nat, at: nat)
    requires FreshTables(tabs, dir, n) && n < 1024 && at != 0 && at !in tabs
    ensures FreshTables(tabs[at := EmptyTable()], Dir(dir.tables[n := at], dir.pdes[n := PF_PRES | PF_RW]), n + 1)
  {
  }

  lemma FreshValid(tabs: map<nat, Table>, dir: Dir, n: nat, k: nat)
    requires FreshTables(tabs, dir, n) && n >= SHARED
    ensures var s := Space(tabs, map[k := dir]); Valid(s) && Linked(s, k)
    ensures forall q {:trigger Lookup(Space(tabs, map[k := dir]), k, q)} :: 0 <= q < PAGES ==>
              ShapeOk(Space(tabs, map[k := dir]), k) && Lookup(Space(tabs, map[k := dir]), k, q) == NO_ENTRY
  {
    NoEntryBits();
    var s := Space(tabs, map[k := dir]);
    assert ShapeOk(s, k);
    assert (0 as bv32) & ENTRY_FLAGS == 0;
    assert LinkedTo(s, k, k);
  }

  const KERNEL_TABLES: nat := 64

  const KERNEL_FLAGS: bv32 := PF_PRES | PF_RW

  /** The only directory, with its kernel tables at the given addresses. */
  ghost predicate OneDir(s: Space, k: nat, tables: seq<nat>) {
    && s.dirs.Keys == {k} && Valid(s) && ShapeOk(s, k) && s.dirs[k].tables == tables
    && forall i :: 0 <= i < KERNEL_TABLES ==> tables[i] != 0
  }

  /** What page q below the kernel stack is mapped to once pages 1 .. n - 1 are mapped to themselves. */
  function Identity(n: int, q: int): Entry { if 1 <= q < n then Entry(KERNEL_FLAGS, q) else NO_ENTRY }

  ghost predicate IdentityMapped(s: Space, k: nat, tables: seq<nat>, n: int) {
    && OneDir(s, k, tables)
    && forall q {:trigger Lookup(s, k, q)} :: 0 <= q < PAGES ==> Lookup(s, k, q) == Identity(n, q)
  }

  lemma KernelFlagBits()
    ensures KERNEL_FLAGS & ENTRY_FLAGS == KERNEL_FLAGS && KERNEL_FLAGS & PF_PRES != 0
  {
  }

  lemma OneDirLinked(s: Space, k: nat, tables: seq<nat>)
    requires OneDir(s, k, tables)
    ensures Linked(s, k)
  {
    assert LinkedTo(s, k, k);
  }

  /** Mapping a page of an existing table keeps the only directory as it is. */
  lemma OneDirKept(s: Space, k: nat, tables: seq<nat>, p: int, frame: nat, flags: bv32, at: nat)
    requires OneDir(s, k, tables) && 0 <= p < 1024 * KERNEL_TABLES && at != 0 && at !in s.tabs
    ensures OneDir(Mapped(s, k, p, frame, flags, at), k, tables)
  {
    MapValid(s, k, MapCall(p, frame, flags, at));
    SameTables(s, k, p, frame, flags, at);
    assert ShapeOk(Mapped(s, k, p, frame, flags, at), k);
  }

  lemma IdentityStep(s: Space, k: nat, tables: seq<nat>, n: nat, at: nat)
    requires IdentityMapped(s, k, tables, n) && 1 <= n < KSTACK_PAGE && at != 0 && at !in s.tabs
    ensures IdentityMapped(Mapped(s, k, n, n, KERNEL_FLAGS, at), k, tables, n + 1)
  {
    var u := Mapped(s, k, n, n, KERNEL_FLAGS, at);
    KernelFlagBits();
    OneDirKept(s, k, tables, n, n, KERNEL_FLAGS, at);
    forall q | 0 <= q < PAGES
      ensures Lookup(u, k, q) == Identity(n + 1, q)
    {
      MapRefines(s, k, n, n, KERNEL_FLAGS, at, k, q);
    }
  }

  /** Kernel stack pages below p are there, each with its own frame outside the identity map, and nothing above. */
  ghost predicate StackMapped(w: World, k: nat, tables: seq<nat>, n: int, p: int) {
    && OneDir(w.space, k, tables) && Exclusive(w) && (forall f {:trigger f in w.used} :: 0 <= f < n ==> f in w.used)
    && (forall q {:trigger FrameOf(w.space, k, q)} :: KSTACK_PAGE <= q < p <= PAGES ==>
          FrameOf(w.space, k, q) >= n && Lookup(w.space, k, q).flags == KERNEL_FLAGS)
    && (forall q {:trigger Lookup(w.space, k, q)} :: 0 <= q < KSTACK_PAGE ==> Lookup(w.space, k, q) == Identity(n, q))
    && (forall q {:trigger Has(w.space, k, q)} :: KSTACK_PAGE <= q < PAGES ==> (Has(w.space, k, q) <==> q < p))
  }

  lemma StackStart(w: World, k: nat, tables: seq<nat>, n: int)
    requires IdentityMapped(w.space, k, tables, n) && n <= KSTACK_PAGE && forall f :: 0 <= f < n ==> f in w.used
    ensures StackMapped(w, k, tables, n, KSTACK_PAGE)
  {
    NoFlags();
    forall q | KSTACK_PAGE <= q < PAGES
      ensures !Has(w.space, k, q)
    {
      assert Lookup(w.space, k, q) == Identity(n, q);
    }
    assert Exclusive(w);
  }

  lemma StackStep(w: World, k: nat, tables: seq<nat>, n: int, p: int, f: nat, at: nat, content: Page)
    requires StackMapped(w, k, tables, n, p) && KSTACK_PAGE <= p < 1024 * KERNEL_TABLES && f !in w.used && at != 0 && at !in w.space.tabs
    ensures StackMapped(AddPage(w, k, p, f, KERNEL_FLAGS, at, content), k, tables, n, p + 1)
  {
    var u := AddPage(w, k, p, f, KERNEL_FLAGS, at, content);
    KernelFlagBits();
    OneDirKept(w.space, k, tables, p, f, KERNEL_FLAGS, at);
    AddExclusive(w, k, p, f, KERNEL_FLAGS, at, content);
    forall q | 0 <= q < KSTACK_PAGE
      ensures Lookup(u.space, k, q) == Identity(n, q)
    {
      MapRefines(w.space, k, p, f, KERNEL_FLAGS, at, k, q);
    }
    forall q | KSTACK_PAGE <= q < PAGES
      ensures Has(u.space, k, q) <==> q < p + 1
      ensures q < p + 1 ==> FrameOf(u.space, k, q) >= n && Lookup(u.space, k, q).flags == KERNEL_FLAGS
    {
      StackPage(w, k, tables, n, p, f, at, content, q);
    }
  }

  lemma StackPage(w: World, k: nat, tables: seq<nat>, n: int, p: int, f: nat, at: nat, content: Page, q: int)
    requires StackMapped(w, k, tables, n, p) && KSTACK_PAGE <= p < 1024 * KERNEL_TABLES && f !in w.used && at != 0 && at !in w.space.tabs
    requires KSTACK_PAGE <= q < PAGES
    ensures var s := AddPage(w, k, p, f, KERNEL_FLAGS, at, content).space;
            && ShapeOk(s, k) && (Has(s, k, q) <==> q < p + 1) && (q < p + 1 ==> FrameOf(s, k, q) >= n && Lookup(s, k, q).flags == KERNEL_FLAGS)
  {
    KernelFlagBits();
    MapRefines(w.space, k, p, f, KERNEL_FLAGS, at, k, q);
    assert Has(w.space, k, q) <==> q < p;
    assert q < p ==> FrameOf(w.space, k, q) >= n && Lookup(w.space, k, q).flags == KERNEL_FLAGS;
  }
}
