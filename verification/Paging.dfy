/** kernel/src/mm/paging.c, the tear-down in kernel/src/mm/task.c, the kernel break of kernel/src/mm/kvm.c and the user heap
    of kernel/src/mm/uvm.c: the code that changes page tables and the frame bitmap step by step. */
module Paging {
  import opened Layout
  import opened Sets
  import opened PagingSpec
  import opened PagingClone
  import opened PagingHeap
  import opened PagingRights
  import opened PagingKernel
  import opened PagingBreak
  import opened PagingOwners
  import opened PagingDestroy

  function FreeFrames(used: set<nat>, memsize: nat): set<nat> { set f | 0 <= f < memsize && f !in used }

  /** Pages of d from p up that are present. */
  function PresentFrom(s: Space, d: nat, p: int): set<int>
    requires ShapeOk(s, d) && 0 <= p
  {
    set q | p <= q < PAGES && Has(s, d, q)
  }

  /** The address of page p as the loops count it: after the last page it wraps to 0. */
  function PageAddr(p: int): int { if p == PAGES then 0 else 4096 * p }

  lemma NextAddr(p: int)
    requires KSTACK_PAGE <= p < PAGES
    ensures PageAddr(p) / 4096 == p && KSTACK_BEGIN <= PageAddr(p) < USTACK_END && (PageAddr(p) + 4096) % WORD == PageAddr(p + 1)
  {
  }

  /** There is always an address for one more table. */
  lemma {:induction false} UnusedAddress(s: set<nat>) returns (at: nat)
    ensures at != 0 && at !in s && forall t :: t in s ==> t < at
  {
    if s == {} {
      at := 1;
    } else {
      var t :| t in s;
      at := UnusedAddress(s - {t});
      assert forall x :: x in s ==> x == t || x in s - {t};
      at := if t < at then at else t + 1;
    }
  }

  /** The two ways of computing where the private part of a directory starts agree. */
  lemma SplitIndices()
    ensures KSTACK_BEGIN / (1024 * 4096 - 1) == SHARED == KSTACK_BEGIN / (1023 * 4096)
    ensures KSTACK_BEGIN == 4096 * KSTACK_PAGE && KSTACK_PAGE == 1024 * SHARED
  {
  }

  /** Where an existing table would have gone makes no difference. */
  lemma NoNewTable(s: Space, d: nat, p: int, frame: nat, flags: bv32, at1: nat, at2: nat)
    requires Shaped(s) && d in s.dirs && ShapeOk(s, d) && 0 <= p < PAGES && s.dirs[d].tables[p / 1024] != 0
    ensures Mapped(s, d, p, frame, flags, at1) == Mapped(s, d, p, frame, flags, at2)
  {
  }

  ghost function UnusedIn(s: Space): (at: nat)
    ensures at != 0 && at !in s.tabs
  {
    var a := SomeUnused(s.tabs.Keys);
    a
  }

  ghost function SomeUnused(s: set<nat>): (at: nat)
    ensures at != 0 && at !in s
  {
    assert exists a: nat :: a != 0 && a !in s by { var a := UnusedAddress(s); }
    var a: nat :| a != 0 && a !in s;
    a
  }

  lemma SharedSamePages(w: World, cur: nat, child: nat)
    requires Pair(w.space, cur, child) && Backed(w, cur)
    requires var u := Shared(w.space, cur, child); Shaped(u) && ShapeOk(u, cur)
    requires forall q {:trigger Lookup(Shared(w.space, cur, child), cur, q)} :: 0 <= q < PAGES ==>
               Lookup(Shared(w.space, cur, child), cur, q) == Lookup(w.space, cur, q)
    ensures var w0 := w.(space := Shared(w.space, cur, child));
            Backed(w0, cur) && PresentFrom(w0.space, cur, KSTACK_PAGE) == PresentFrom(w.space, cur, KSTACK_PAGE)
  {
    var u := Shared(w.space, cur, child);
    forall q | KSTACK_PAGE <= q < PAGES
      ensures Has(u, cur, q) <==> Has(w.space, cur, q)
      ensures FrameOf(u, cur, q) == FrameOf(w.space, cur, q)
    {
      assert Lookup(u, cur, q) == Lookup(w.space, cur, q);
    }
  }

  lemma PageNumber(p: int)
    ensures 4096 * p / 4096 == p
  {
  }

  lemma PresentSplit(s: Space, d: nat, p: int)
    requires ShapeOk(s, d) && 0 <= p < PAGES
    ensures |PresentFrom(s, d, p + 1)| == |PresentFrom(s, d, p)| - if Has(s, d, p) then 1 else 0
    ensures Has(s, d, p) ==> |PresentFrom(s, d, p)| > 0
  {
    var a, b := PresentFrom(s, d, p), PresentFrom(s, d, p + 1);
    if Has(s, d, p) {
      assert a == b + {p} && p !in b;
    } else {
      assert a == b;
    }
  }

  lemma OneFrameLess(used: set<nat>, f: nat, memsize: nat)
    requires f in FreeFrames(used, memsize)
    ensures |FreeFrames(used + {f}, memsize)| == |FreeFrames(used, memsize)| - 1
  {
    assert FreeFrames(used, memsize) == FreeFrames(used + {f}, memsize) + {f};
  }

  lemma PresentSource(w0: World, w: World, cur: nat, child: nat, p: int)
    requires w in Cloned(w0, cur, child, p) && Backed(w0, cur) && p < PAGES && Has(w.space, cur, p)
    ensures Has(w0.space, cur, p) && FrameOf(w.space, cur, p) in w.mem
  {
    assert Lookup(w.space, cur, p) == Lookup(w0.space, cur, p);
    assert Has(w0.space, cur, p);
  }

  lemma AbsentSource(w0: World, w: World, cur: nat, child: nat, p: int)
    requires w in Cloned(w0, cur, child, p) && p < PAGES && !Has(w.space, cur, p)
    ensures !Has(w0.space, cur, p)
  {
    assert Lookup(w.space, cur, p) == Lookup(w0.space, cur, p);
  }

  lemma TornSource(w0: World, w: World, d: nat, p: int)
    requires w in Torn(w0, d, p) && p < PAGES && ShapeOk(w.space, d) && Has(w.space, d, p) && Exclusive(w0)
    ensures FrameOf(w.space, d, p) in w0.used
  {
    assert TornAt(w0, w, d, p, d, p) && Has(w0.space, d, p);
  }

  // ---------------------------------------------------------------- counting frames

  /** Frames that are not in use are free. */
  lemma ManyFree(used: set<nat>, memsize: nat)
    ensures |FreeFrames(used, memsize)| >= memsize - |used|
  {
    var free := FreeFrames(used, memsize);
    assert Below(memsize) <= free + used;
    SubsetCard(Below(memsize), free + used);
    assert |free + used| <= |free| + |used|;
  }

  // ---------------------------------------------------------------- before a clone

  /** Every frame in use that backs a page holds something. */
  lemma AllBacked(w: World, d: nat)
    requires Exclusive(w) && d in w.space.dirs && (forall f :: f in w.used ==> f < FRAMES) && Furnished(w)
    ensures Backed(w, d)
  {
    assert ShapeOk(w.space, d);
  }

  lemma NewDirPresent(s: Space, child: nat, cur: nat)
    requires Shaped(s) && child !in s.dirs && cur in s.dirs
    ensures ShapeOk(s, cur) && ShapeOk(WithDir(s, child), cur)
    ensures PresentFrom(WithDir(s, child), cur, KSTACK_PAGE) == PresentFrom(s, cur, KSTACK_PAGE)
  {
    NewDirShape(s, child);
    assert ShapeOk(s, cur) && ShapeOk(WithDir(s, child), cur);
    forall q | KSTACK_PAGE <= q < PAGES
      ensures Has(WithDir(s, child), cur, q) <==> Has(s, cur, q)
    {
      assert Lookup(WithDir(s, child), cur, q) == Lookup(s, cur, q);
    }
  }

  lemma BreakBelow(start: int, size: int)
    requires start % 4096 == 0 && size % 4096 == 0 && start / 4096 < (start + size) / 4096
    ensures size >= 4096 && (size - 4096) % 4096 == 0 && (start + (size - 4096)) / 4096 == (start + size) / 4096 - 1
  {
  }

  lemma BreakAbove(start: int, size: int)
    requires start % 4096 == 0 && size % 4096 == 0
    ensures (size + 4096) % 4096 == 0 && (start + (size + 4096)) / 4096 == (start + size) / 4096 + 1
  {
  }

  /** The frame `get_phys` names at the beginning of a page. */
  lemma PhysFrame(s: Space, k: nat, p: int)
    requires ShapeOk(s, k) && 0 <= p < PAGES
    ensures GetPhys(s, k, 4096 * p) / 4096 == BreakFrame(s, k, p)
  {
  }

  /** A new directory is ready to be cloned into. */
  lemma ForkReady(w: World, k: nat, cur: nat, child: nat, lo: int, b: int)
    requires w in Sound(k, lo, b) && (forall f :: f in w.used ==> f < FRAMES) && cur in w.space.dirs && child !in w.space.dirs
    ensures var w1 := w.(space := WithDir(w.space, child));
            && w1 in Ready(k, cur, child) && Blank(w1.space, child) && Backed(w1, cur) && Exclusive(w1)
            && ShapeOk(w.space, cur) && PresentFrom(w1.space, cur, KSTACK_PAGE) == PresentFrom(w.space, cur, KSTACK_PAGE)
  {
    NewDir(w, k, child);
    NewDirPresent(w.space, child, cur);
    ForkSees(w, k, cur, child);
    AllBacked(w.(space := WithDir(w.space, child)), cur);
  }

  /** After the clone everybody owns their frames, the child included. */
  lemma ForkSound(w: World, w2: World, k: nat, cur: nat, child: nat, lo: int, b: int)
    requires w in Sound(k, lo, b) && cur in w.space.dirs && child !in w.space.dirs
    requires w2 in Cloned(Blanked(w, cur, child), cur, child, PAGES) && Exclusive(w2) && Furnished(w2)
    ensures w2 in Sound(k, lo, b)
  {
    ForkSees(w, k, cur, child);
    NewDir(w, k, child);
    CloneLinked(w.(space := WithDir(w.space, child)), w2, k, cur, child);
    ForkKept(w, w2, k, cur, child, lo, b);
  }

  /** The frame bitmap: true when the frame is in use. */
  type Bitmap = s: seq<bool> | |s| == FRAMES witness seq(FRAMES, _ => false)

  /** The machine's memory is a multiple of 32 frames, because of the bitmap. */
  type FrameCount = n: nat | n <= FRAMES && n % 32 == 0

  /** A page-aligned address, or a number of whole pages in bytes. */
  type Aligned = a: int | 0 <= a && a % 4096 == 0

  const KSTACK_END: int := 0x0FFF_FFF0

  class Mmu {
    var tabs: map<nat, Table>
    var dirs: map<nat, Dir>
    var frames: Bitmap
    var memsize: FrameCount
    var mem: map<nat, Page>        // what the frames hold
    var curPageDir: nat            // `cur_page_dir`, set once at boot: the copy window is opened here
    var taskDir: nat               // the running task's `page_dir`, which the hardware uses
    var kheapStart: Aligned        // the kernel heap
    var kheapSize: Aligned
    var uheapBegin: Aligned        // the running task's heap
    var uheapEnd: Aligned

    ghost function View(): World
      reads this
    {
      World(Space(tabs, dirs), (set f | 0 <= f < FRAMES && frames[f]), mem)
    }

    ghost predicate Valid()
      reads this
    {
      PagingSpec.Valid(View().space) && curPageDir in dirs && taskDir in dirs
    }

    ghost function StartPage(): int
      reads this
    {
      kheapStart / 4096
    }

    /** The page at the kernel break. */
    ghost function BreakPage(): int
      reads this
    {
      (kheapStart + kheapSize) / 4096
    }

    /** What holds between calls as long as no fall of the kernel break was unsafe: well-formed tables, every private frame
        in use and backing one page of one address space, kernel tables shared by all, the kernel heap on frames of its
        own, the copy window closed, and memory behind every frame. */
    ghost predicate Ok()
      reads this
    {
      taskDir in dirs && View() in Sound(curPageDir, StartPage(), BreakPage())
    }

    /** What holds in any case, as far as the kernel break goes. */
    ghost predicate Working()
      reads this
    {
      taskDir in dirs && View() in Workable(curPageDir, StartPage(), BreakPage())
    }

    // -------------------------------------------------------------- boot

    /** `paging_init` on a machine with the given number of frames, n of them below the end of the identity map: the only
        address space maps pages 1 .. n - 1 to themselves and the kernel stack to frames of its own, and nothing else; the
        kernel heap is empty and starts at page n. */
    constructor (memsize: FrameCount, n: nat, ram: map<nat, Page>)
      requires 1 <= n <= KSTACK_PAGE && n + 1024 <= memsize && forall f :: 0 <= f < FRAMES ==> f in ram
      ensures Ok() && this.memsize == memsize && mem == ram
      ensures taskDir == curPageDir && dirs.Keys == {curPageDir} && kheapStart == 4096 * n && kheapSize == 0
      ensures |FreeFrames(View().used, memsize)| >= memsize - n - 1024
      ensures StackMapped(View(), curPageDir, dirs[curPageDir].tables, n, UMEM_PAGE)
    {
      this.memsize, frames, mem := memsize, seq(FRAMES, _ => false), ram;
      tabs, dirs, curPageDir, taskDir, uheapBegin, uheapEnd := map[], map[], 0, 0, 0, 0;
      kheapStart, kheapSize := 0, 0;
      new;
      MapKernel(n);
      KvmInit(n);
    }

    /** Lines 384-413 of `paging_init`. */
    method MapKernel(n: nat)
      requires tabs == map[] && dirs == map[] && frames == seq(FRAMES, _ => false)
      requires 1 <= n <= KSTACK_PAGE && n + 1024 <= memsize && Furnished(View())
      modifies this`tabs, this`dirs, this`frames, this`curPageDir, this`taskDir
      ensures taskDir == curPageDir && dirs.Keys == {curPageDir} && |FreeFrames(View().used, memsize)| >= memsize - n - 1024
      ensures StackMapped(View(), curPageDir, dirs[curPageDir].tables, n, UMEM_PAGE)
    {
      curPageDir := CreatePageDir();
      taskDir := curPageDir;
      KernelTables();
      IdentityMap(n);
      CreateKstack(n);
    }

    /** `kvm_init`: the kernel heap starts where the identity map ends. */
    method KvmInit(n: nat)
      requires curPageDir in dirs && taskDir in dirs && StackMapped(View(), curPageDir, dirs[curPageDir].tables, n, UMEM_PAGE)
      requires 1 <= n <= KSTACK_PAGE && kheapSize == 0 && Furnished(View())
      modifies this`kheapStart
      ensures Ok() && kheapStart == 4096 * n
    {
      kheapStart := 4096 * n;
      PageNumber(n);
      BootState(View(), curPageDir, dirs[curPageDir].tables, n);
    }

    /** `create_page_dir`: an empty directory at an address not in use. */
    method CreatePageDir() returns (child: nat)
      modifies this`dirs
      ensures child != 0 && child !in old(dirs) && dirs == old(dirs)[child := EmptyDir()]
    {
      ghost var bound := UnusedAddress(dirs.Keys);
      child := 1;
      while child in dirs
        invariant 1 <= child <= bound
        decreases bound - child
      {
        child := child + 1;
      }
      dirs := dirs[child := EmptyDir()];
    }

    /** Lines 388-410 of `paging_init`: the kernel's page tables, up to and including the one of its stack. */
    method KernelTables()
      requires tabs == map[] && dirs == map[curPageDir := EmptyDir()]
      modifies this`tabs, this`dirs
      ensures dirs.Keys == {curPageDir} && FreshTables(tabs, dirs[curPageDir], KERNEL_TABLES)
    {
      for i := 0 to KSTACK_END / (4096 * 1023)
        invariant dirs.Keys == {curPageDir} && FreshTables(tabs, dirs[curPageDir], i)
      {
        var at := NewAddress();
        OneMoreTable(tabs, dirs[curPageDir], i, at);
        tabs := tabs[at := EmptyTable()];
        dirs := dirs[curPageDir := Dir(dirs[curPageDir].tables[i := at], dirs[curPageDir].pdes[i := PF_PRES | PF_RW])];
      }
    }

    /** `identity_map`. */
    method IdentityMap(n: nat)
      requires dirs.Keys == {curPageDir} && FreshTables(tabs, dirs[curPageDir], KERNEL_TABLES)
      requires frames == seq(FRAMES, _ => false) && 1 <= n <= KSTACK_PAGE
      modifies this`tabs, this`dirs, this`frames
      ensures View().used == Below(n)
      ensures dirs.Keys == {curPageDir} && IdentityMapped(View().space, curPageDir, dirs[curPageDir].tables, n)
    {
      FreshValid(tabs, dirs[curPageDir], KERNEL_TABLES, curPageDir);
      assert dirs == map[curPageDir := dirs[curPageDir]];
      ghost var tables := dirs[curPageDir].tables;
      frames := frames[0 := true];
      for p := 1 to n
        invariant forall f :: 0 <= f < FRAMES ==> (frames[f] <==> f < p)
        invariant IdentityMapped(View().space, curPageDir, tables, p)
      {
        ghost var s := View().space;
        frames := frames[p := true];
        var at := PageMap(curPageDir, p, p, PF_PRES | PF_RW);
        IdentityStep(s, curPageDir, tables, p, at);
      }
      assert View().used == Below(n);
    }

    /** `create_kstack`. */
    method CreateKstack(n: nat)
      requires View().used == Below(n) && n + 1024 <= memsize && n <= KSTACK_PAGE && Furnished(View())
      requires curPageDir in dirs && IdentityMapped(View().space, curPageDir, dirs[curPageDir].tables, n)
      modifies this`tabs, this`dirs, this`frames
      ensures curPageDir in dirs && |FreeFrames(View().used, memsize)| >= memsize - n - 1024
      ensures StackMapped(View(), curPageDir, dirs[curPageDir].tables, n, UMEM_PAGE)
    {
      ghost var tables := dirs[curPageDir].tables;
      StackStart(View(), curPageDir, tables, n);
      ManyFree(View().used, memsize);
      var i := KSTACK_BEGIN;
      ghost var p := KSTACK_PAGE;
      while i < KSTACK_END
        invariant KSTACK_PAGE <= p <= UMEM_PAGE && i == 4096 * p
        invariant StackMapped(View(), curPageDir, tables, n, p)
        invariant |FreeFrames(View().used, memsize)| >= memsize - n - (p - KSTACK_PAGE)
        decreases UMEM_PAGE - p
      {
        PageNumber(p);
        StackPage(i / 4096, n, tables);
        i := i + 4096;
        p := p + 1;
      }
    }

    /** One round of that loop. */
    method StackPage(p: int, ghost n: nat, ghost tables: seq<nat>)
      requires KSTACK_PAGE <= p < UMEM_PAGE && Furnished(View())
      requires StackMapped(View(), curPageDir, tables, n, p) && |FreeFrames(View().used, memsize)| > 0
      modifies this`tabs, this`dirs, this`frames
      ensures StackMapped(View(), curPageDir, tables, n, p + 1)
      ensures |FreeFrames(View().used, memsize)| == |FreeFrames(old(View()).used, memsize)| - 1
    {
      ghost var w := View();
      var f := FrameAlloc();
      var at := PageMap(curPageDir, p, f, PF_PRES | PF_RW);
      assert mem == mem[f := mem[f]];
      StackStep(w, curPageDir, tables, n, p, f, at, mem[f]);
      OneFrameLess(w.used, f, memsize);
    }

    /** `find_free_frame` and `frame_alloc`: the lowest free frame; 0 when there is none. */
    method FrameAlloc() returns (f: nat)
      modifies this`frames
      ensures FreeFrames(old(View()).used, memsize) == {} ==> f == 0 && frames == old(frames)
      ensures FreeFrames(old(View()).used, memsize) != {} ==>
                && f in FreeFrames(old(View()).used, memsize)
                && View() == old(View()).(used := old(View()).used + {f})
                && forall g :: 0 <= g < f ==> g in old(View()).used
    {
      for i := 0 to memsize / 32
        invariant frames == old(frames) && forall g :: 0 <= g < 32 * i ==> frames[g]
      {
        for j := 0 to 32
          invariant frames == old(frames) && forall g :: 0 <= g < 32 * i + j ==> frames[g]
        {
          if !frames[32 * i + j] {
            f := 32 * i + j;
            ghost var was := View().used;
            assert f in FreeFrames(was, memsize);
            frames := frames[f := true];
            assert View().used == was + {f};
            return;
          }
        }
      }
      return 0;
    }

    /** `frame_free`. */
    method FrameFree(f: nat)
      requires f < FRAMES
      modifies this`frames
      ensures View() == old(View()).(used := old(View()).used - {f})
    {
      ghost var was := View().used;
      frames := frames[f := false];
      assert View().used == was - {f};
    }

    /** `kmalloc_pa` for a table: some address that holds no table yet. */
    method NewAddress() returns (at: nat)
      ensures at != 0 && at !in tabs
    {
      ghost var bound := UnusedAddress(tabs.Keys);
      at := 1;
      while at in tabs
        invariant 1 <= at <= bound
        decreases bound - at
      {
        at := at + 1;
      }
    }

    /** `page_map`; a missing table is made at `at`. */
    method PageMap(d: nat, p: int, frame: nat, flags: bv32) returns (at: nat)
      requires Shaped(View().space) && d in dirs && 0 <= p < PAGES
      modifies this`tabs, this`dirs
      ensures at != 0 && at !in old(tabs) && View() == old(View()).(space := Mapped(old(View()).space, d, p, frame, flags, at))
      ensures ShapeOk(old(View()).space, d) && ShapeOk(View().space, d)
      ensures RightsOf(dirs[d].pdes[p / 1024]) == RightsGiven(old(dirs)[d], p / 1024, flags)
    {
      ghost var s := View().space;
      at := WriteEntries(d, p, frame, flags);
      MapRights(s, d, p, frame, flags, at);
    }

    /** Its writes. */
    method WriteEntries(d: nat, p: int, frame: nat, flags: bv32) returns (at: nat)
      requires Shaped(View().space) && d in dirs && 0 <= p < PAGES
      modifies this`tabs, this`dirs
      ensures at != 0 && at !in old(tabs) && View() == old(View()).(space := Mapped(old(View()).space, d, p, frame, flags, at))
    {
      ghost var s := View().space;
      assert ShapeOk(s, d);
      var i, k := p / 1024, p % 1024;
      at := NewAddress();
      if dirs[d].tables[i] == 0 {
        tabs := tabs[at := EmptyTable()];
        dirs := dirs[d := Dir(dirs[d].tables[i := at], dirs[d].pdes[i := (flags & PDE_FLAGS) | PF_PRES])];
      }
      assert View().space == WithTable(s, d, i, flags, at);
      var t := dirs[d].tables[i];
      tabs := tabs[t := tabs[t][k := Entry(flags & ENTRY_FLAGS, frame)]];
      dirs := dirs[d := Dir(dirs[d].tables, dirs[d].pdes[i := dirs[d].pdes[i] | (flags & PF_RW)])];
    }

    /** First loop of `clone_page_dir`. */
    method ShareTables(child: nat)
      requires Pair(View().space, taskDir, child)
      modifies this`dirs
      ensures View() == old(View()).(space := Shared(old(View()).space, taskDir, child))
    {
      SplitIndices();
      ghost var cur, kid := dirs[taskDir], dirs[child];
      for i := 0 to KSTACK_BEGIN / (1024 * 4096 - 1)
        invariant dirs.Keys == old(dirs).Keys && dirs == old(dirs)[child := dirs[child]]
        invariant dirs[child].tables == cur.tables[..i] + kid.tables[i..]
        invariant dirs[child].pdes == cur.pdes[..i] + kid.pdes[i..]
      {
        dirs := dirs[child := Dir(dirs[child].tables[i := dirs[taskDir].tables[i]],
                                  dirs[child].pdes[i := dirs[taskDir].pdes[i]])];
      }
    }

    /** Lines 152-154 of `clone_page_dir`: the window at NULL, opened in `cur_page_dir`, and the copy through it, which
        the hardware does with the running task's tables; the two share the table of page 0. */
    method CopyThroughNull(frame: nat, p: int)
      requires PagingSpec.Valid(View().space) && curPageDir in dirs && ShapeOk(View().space, curPageDir)
      requires taskDir in dirs && ShapeOk(View().space, taskDir) && dirs[curPageDir].tables[0] == dirs[taskDir].tables[0] != 0
      requires 0 < p < PAGES && FrameOf(View().space, taskDir, p) in mem
      modifies this`tabs, this`dirs, this`mem
      ensures forall at {:trigger Window(old(View()).space, curPageDir, frame, at)} :: at != 0 ==>
                View() == old(View()).(space := Window(old(View()).space, curPageDir, frame, at),
                                       mem := old(mem)[frame := old(mem)[FrameOf(old(View()).space, taskDir, p)]])
    {
      ghost var s := View().space;
      var at1 := PageMap(curPageDir, 0, frame, PF_PRES | PF_RW);
      MapRefines(s, curPageDir, 0, frame, PF_PRES | PF_RW, at1, taskDir, 0);
      MapRefines(s, curPageDir, 0, frame, PF_PRES | PF_RW, at1, taskDir, p);
      MapShaped(s, curPageDir, 0, frame, PF_PRES | PF_RW, at1);
      var to, from := FrameOf(Space(tabs, dirs), taskDir, 0), FrameOf(Space(tabs, dirs), taskDir, p);
      mem := mem[to := mem[from]];
      SameTables(s, curPageDir, 0, frame, PF_PRES | PF_RW, at1);
      ghost var s1 := View().space;
      var at2 := PageMap(curPageDir, 0, 0, 0);
      forall at: nat | at != 0
        ensures Window(s, curPageDir, frame, at) == View().space
      {
        NoNewTable(s, curPageDir, 0, frame, PF_PRES | PF_RW, at1, at);
        NoNewTable(s1, curPageDir, 0, 0, 0, at2, at);
      }
    }

    /** Lines 150-155 of `clone_page_dir`: one page. */
    method CopyOne(child: nat, p: int, flags: bv32) returns (ghost f: nat)
      requires View() in Ready(curPageDir, taskDir, child) && KSTACK_PAGE <= p < PAGES
      requires ShapeOk(View().space, taskDir) && flags == PageFlags(View().space, taskDir, p)
      requires FrameOf(View().space, taskDir, p) in mem && FreeFrames(View().used, memsize) != {}
      modifies this`tabs, this`dirs, this`frames, this`mem
      ensures f in FreeFrames(old(View()).used, memsize)
      ensures View() in Copies(old(View()), taskDir, child, p, f) && View() in Ready(curPageDir, taskDir, child)
    {
      ghost var w := View();
      var frame := FrameAlloc();
      ghost var at := CopyInto(child, p, flags, frame, w);
      f := frame;
      CopyReady(w, curPageDir, taskDir, child, p, f, at);
    }

    /** The calls after `frame_alloc`, on the picture w before it. */
    method CopyInto(child: nat, p: int, flags: bv32, frame: nat, ghost w: World) returns (ghost at: nat)
      requires Sees(w.space, curPageDir, taskDir, child) && View() == w.(used := w.used + {frame}) && KSTACK_PAGE <= p < PAGES
      requires flags == PageFlags(w.space, taskDir, p) && FrameOf(w.space, taskDir, p) in mem
      modifies this`tabs, this`dirs, this`mem
      ensures at != 0 && at !in w.space.tabs && View() == CopyPage(w, curPageDir, taskDir, child, p, frame, at)
    {
      CopyThroughNull(frame, p);
      WindowKeeps(w.space, curPageDir, frame, UnusedIn(w.space));
      assert View().space == Window(w.space, curPageDir, frame, UnusedIn(w.space));
      var a := PageMap(child, p, frame, flags);
      at := a;
      assert Window(w.space, curPageDir, frame, at) == Window(w.space, curPageDir, frame, UnusedIn(w.space));
    }

    /** The copying has come to page p, and the frames for the rest are there. */
    ghost predicate Cloning(w0: World, child: nat, p: int)
      reads this
    {
      && View() in Ready(curPageDir, taskDir, child) && View() in Cloned(w0, taskDir, child, p) && Backed(w0, taskDir)
      && |PresentFrom(w0.space, taskDir, p)| <= |FreeFrames(View().used, memsize)|
    }

    /** Lines 145-155 of `clone_page_dir`: page p, if it is present. */
    method ClonePage(child: nat, p: int, ghost next: int, ghost w0: World)
      requires Cloning(w0, child, p) && p < PAGES && next == p + 1
      modifies this`tabs, this`dirs, this`frames, this`mem
      ensures Cloning(w0, child, next)
    {
      ghost var w := View();
      var flags := PageFlags(Space(tabs, dirs), taskDir, p);
      FlagsRoundTrip(w.space, taskDir, p);
      PresentSplit(w0.space, taskDir, p);
      if flags & PF_PRES == 0 {
        AbsentSource(w0, w, taskDir, child, p);
        CloneSkip(w0, w, taskDir, child, p, next);
      } else {
        PresentSource(w0, w, taskDir, child, p);
        ghost var f := CopyOne(child, p, flags);
        CloneStep(w0, w, View(), taskDir, child, p, f, next);
        OneFrameLess(w.used, f, memsize);
      }
    }

    /** `clone_page_dir` from the running address space into a directory just created; it starts by linking the kernel
        tables.  The frames it needs are there: the code does not check. */
    method ClonePageDir(child: nat, ghost linked: World)
      requires View() in Ready(curPageDir, taskDir, child) && Blank(View().space, child) && Backed(View(), taskDir)
      requires |PresentFrom(View().space, taskDir, KSTACK_PAGE)| <= |FreeFrames(View().used, memsize)|
      requires linked == View().(space := Shared(View().space, taskDir, child))
      modifies this`tabs, this`dirs, this`frames, this`mem
      ensures View() in Ready(curPageDir, taskDir, child) && View() in Cloned(linked, taskDir, child, PAGES)
      ensures Exclusive(old(View())) ==> Exclusive(View())
    {
      ghost var w := View();
      CloneStart(w, taskDir, child);
      SharedSees(w.space, curPageDir, taskDir, child);
      SharedSamePages(w, taskDir, child);
      ShareTables(child);
      CopyPages(child, linked);
      if Exclusive(w) {
        SharedExclusive(w, taskDir, child);
        CloneExclusive(linked, View(), taskDir, child);
      }
    }

    /** The memory side of `task_fork_inner`: a new directory, then a clone of the running one. */
    method ForkSpace() returns (child: nat)
      requires Ok() && |PresentFrom(View().space, taskDir, KSTACK_PAGE)| <= |FreeFrames(View().used, memsize)|
      modifies this`tabs, this`dirs, this`frames, this`mem
      ensures Ok() && child !in old(dirs) && child in dirs
      ensures View() in Cloned(Blanked(old(View()), taskDir, child), taskDir, child, PAGES)
    {
      ghost var w := View();
      child := CreatePageDir();
      CloneNew(child, w);
    }

    /** The clone into a directory just created; w is the picture before that. */
    method CloneNew(child: nat, ghost w: World)
      requires w in Sound(curPageDir, StartPage(), BreakPage()) && View() == w.(space := WithDir(w.space, child))
      requires taskDir in w.space.dirs && child !in w.space.dirs && ShapeOk(w.space, taskDir) && forall f :: f in w.used ==> f < FRAMES
      requires |PresentFrom(w.space, taskDir, KSTACK_PAGE)| <= |FreeFrames(w.used, memsize)|
      modifies this`tabs, this`dirs, this`frames, this`mem
      ensures Ok() && child in dirs && View() in Cloned(Blanked(w, taskDir, child), taskDir, child, PAGES)
    {
      ForkReady(w, curPageDir, taskDir, child, StartPage(), BreakPage());
      ClonePageDir(child, Blanked(w, taskDir, child));
      ForkSound(w, View(), curPageDir, taskDir, child, StartPage(), BreakPage());
    }

    /** Second loop of `clone_page_dir`, over addresses that wrap to 0 after the last page. */
    method CopyPages(child: nat, ghost w0: World)
      requires Cloning(w0, child, KSTACK_PAGE)
      modifies this`tabs, this`dirs, this`frames, this`mem
      ensures Cloning(w0, child, PAGES)
    {
      var i := KSTACK_BEGIN;
      ghost var p := KSTACK_PAGE;
      while i < USTACK_END
        invariant KSTACK_PAGE <= p <= PAGES && i == PageAddr(p)
        invariant Cloning(w0, child, p)
        decreases PAGES - p
      {
        if i < 4096 { break; }
        ghost var next := p + 1;
        i := CloneAt(child, i, p, next, w0);
        p := next;
      }
    }

    /** One round of that loop. */
    method CloneAt(child: nat, i: int, ghost p: int, ghost q: int, ghost w0: World) returns (next: int)
      requires Cloning(w0, child, p) && p < PAGES && i == PageAddr(p) && q == p + 1
      modifies this`tabs, this`dirs, this`frames, this`mem
      ensures Cloning(w0, child, q) && next == PageAddr(q)
    {
      NextAddr(p);
      var page := i / 4096;
      assert page == p;
      ClonePage(child, page, q, w0);
      next := (i + 4096) % WORD;
    }

    /** A present page is unmapped and its frame freed. */
    method ReleasePage(d: nat, p: int) returns (ghost at: nat)
      requires Shaped(View().space) && d in dirs && ShapeOk(View().space, d) && KSTACK_PAGE <= p < PAGES
      requires FrameOf(View().space, d, p) < FRAMES
      modifies this`tabs, this`dirs, this`frames
      ensures at != 0 && at !in old(tabs) && View() == FreePage(old(View()), d, p, at)
    {
      FrameFree(FrameOf(Space(tabs, dirs), d, p));
      var a := PageMap(d, p, 0, 0);
      at := a;
    }

    /** Lines 202-208 of `task_destroy`: page p, if it is present. */
    method TearPage(d: nat, p: int, ghost next: int, ghost w0: World)
      requires View() in Torn(w0, d, p) && p < PAGES && Exclusive(w0) && next == p + 1 && forall f :: f in w0.used ==> f < FRAMES
      modifies this`tabs, this`dirs, this`frames
      ensures View() in Torn(w0, d, next)
    {
      ghost var w := View();
      assert d in dirs && ShapeOk(w.space, d);
      FlagsRoundTrip(w.space, d, p);
      var flags := PageFlags(Space(tabs, dirs), d, p);
      if flags & PF_PRES == 0 {
        TearSkip(w0, w, d, p, next);
      } else {
        TornSource(w0, w, d, p);
        var at := ReleasePage(d, p);
        PageRemoved(w, d, p, at);
        TearStep(w0, w, View(), d, p, next);
      }
    }

    /** First loop of `task_destroy`. */
    method TearDown(d: nat)
      requires Valid() && d in dirs && Exclusive(View())
      modifies this`tabs, this`dirs, this`frames
      ensures d in dirs && View() in Torn(old(View()), d, PAGES)
    {
      ghost var w0 := View();
      TearStart(w0, d);
      var i := KSTACK_BEGIN;
      ghost var p := KSTACK_PAGE;
      while i < USTACK_END
        invariant KSTACK_PAGE <= p <= PAGES && i == PageAddr(p)
        invariant View() in Torn(w0, d, p)
        decreases PAGES - p
      {
        if i < KSTACK_BEGIN { break; }
        NextAddr(p);
        ghost var next := p + 1;
        var page := i / 4096;
        assert page == p;
        TearPage(d, page, next, w0);
        i := (i + 4096) % WORD;
        p := next;
      }
    }

    /** `clear_page_dir`.  After the table at index i is freed, `kfree` lets the kernel break fall gives[i] pages.  The
        directory is not used any more; its own release follows. */
    method ClearPageDir(d: nat, gives: seq<nat>)
      requires Working() && d in dirs && d != curPageDir && d != taskDir && ShapeOk(View().space, d) && |gives| == 1026
      requires StartPage() <= BreakPage() - Given(dirs[d].tables, gives, |dirs[d].tables|)
      modifies this`tabs, this`dirs, this`frames, this`kheapSize
      ensures Working()
      ensures BreakPage() == old(BreakPage()) - Given(old(dirs)[d].tables, gives, |old(dirs)[d].tables|)
      ensures View() in Fallen(Gone(old(View()), d), curPageDir, old(BreakPage()), Given(old(dirs)[d].tables, gives, |old(dirs)[d].tables|))
    {
      ghost var w0 := View();
      var tables := dirs[d].tables;
      DropDir(d);
      FreeTables(w0, d, tables, gives, BreakPage());
    }

    /** The loop of `clear_page_dir`. */
    method FreeTables(ghost w0: World, ghost d: nat, tables: seq<nat>, gives: seq<nat>, ghost b: int)
      requires d in w0.space.dirs && ShapeOk(w0.space, d) && tables == w0.space.dirs[d].tables && |gives| == 1026
      requires Working() && w0 in Workable(curPageDir, StartPage(), b) && d != curPageDir && BreakPage() == b
      requires View() in Fallen(Releasing(w0, d, SHARED), curPageDir, b, 0) && StartPage() <= b - Given(tables, gives, |tables|)
      modifies this`tabs, this`dirs, this`frames, this`kheapSize
      ensures Working() && BreakPage() == b - Given(tables, gives, |tables|)
      ensures View() in Fallen(Gone(w0, d), curPageDir, b, Given(tables, gives, |tables|))
    {
      SplitIndices();
      var i := KSTACK_BEGIN / (1023 * 4096);
      while i < 1024
        invariant SHARED <= i <= 1024 && Working() && BreakPage() == b - Given(tables, gives, i)
        invariant View() in Fallen(Releasing(w0, d, i), curPageDir, b, Given(tables, gives, i))
      {
        var next := i + 1;
        GivenGrows(tables, gives, next, |tables|);
        ReleaseTable(w0, d, tables, gives, i, next, b);
        i := next;
      }
      assert i == |tables| && Releasing(w0, d, i) == Gone(w0, d);
    }

    /** The directory is not used any more. */
    method DropDir(d: nat)
      requires Working() && d in dirs && d != curPageDir && d != taskDir && ShapeOk(View().space, d)
      modifies this`dirs
      ensures Working() && View() in Fallen(Releasing(old(View()), d, SHARED), curPageDir, BreakPage(), 0)
    {
      ghost var w0 := View();
      ReleasingWorkable(w0, d, SHARED, curPageDir, StartPage(), BreakPage());
      NothingReleased(w0, d);
      dirs := dirs - {d};
      NotFallen(View(), curPageDir, BreakPage());
    }

    /** One round of the loop of `clear_page_dir`. */
    method ReleaseTable(ghost w0: World, ghost d: nat, tables: seq<nat>, gives: seq<nat>, i: int, ghost next: int, ghost b: int)
      requires d in w0.space.dirs && ShapeOk(w0.space, d) && tables == w0.space.dirs[d].tables && |gives| == 1026 && SHARED <= i < 1024
      requires next == i + 1
      requires Working() && w0 in Workable(curPageDir, StartPage(), b) && d != curPageDir
      requires BreakPage() == b - Given(tables, gives, i) && View() in Fallen(Releasing(w0, d, i), curPageDir, b, Given(tables, gives, i))
      requires StartPage() <= b - Given(tables, gives, next)
      modifies this`tabs, this`dirs, this`frames, this`kheapSize
      ensures Working()
      ensures BreakPage() == b - Given(tables, gives, next)
      ensures View() in Fallen(Releasing(w0, d, next), curPageDir, b, Given(tables, gives, next))
    {
      if tables[i] != 0 {
        FreePresent(w0, d, i, tables[i], gives[i], next, b, Given(tables, gives, i), Given(tables, gives, next));
      } else {
        NextTable(w0.space, d, i);
      }
    }

    /** A table goes and the break falls m pages. */
    method FreePresent(ghost w0: World, ghost d: nat, ghost i: int, t: nat, m: nat, ghost next: int, ghost b: int, ghost n: nat, ghost total: nat)
      requires d in w0.space.dirs && ShapeOk(w0.space, d) && SHARED <= i < 1024 && next == i + 1 && t == w0.space.dirs[d].tables[i] != 0
      requires Working() && w0 in Workable(curPageDir, StartPage(), b) && d != curPageDir && StartPage() <= BreakPage() - m
      requires BreakPage() == b - n && View() in Fallen(Releasing(w0, d, i), curPageDir, b, n) && total == n + m
      modifies this`tabs, this`dirs, this`frames, this`kheapSize
      ensures Working() && BreakPage() == b - total && View() in Fallen(Releasing(w0, d, next), curPageDir, b, total)
    {
      FreeTable(w0, d, i, next, t, b, n);
      FallMore(Releasing(w0, d, next), b, n, m, total);
    }

    /** The table itself is freed. */
    method FreeTable(ghost w0: World, ghost d: nat, ghost i: int, ghost next: int, t: nat, ghost b: int, ghost n: nat)
      requires d in w0.space.dirs && ShapeOk(w0.space, d) && SHARED <= i < 1024 && next == i + 1 && t == w0.space.dirs[d].tables[i] != 0
      requires Working() && w0 in Workable(curPageDir, StartPage(), b) && d != curPageDir
      requires BreakPage() == b - n && View() in Fallen(Releasing(w0, d, i), curPageDir, b, n)
      modifies this`tabs
      ensures Working() && View() in Fallen(Releasing(w0, d, next), curPageDir, b, n)
    {
      ghost var w := View();
      ReleasingWorkable(w0, d, next, curPageDir, StartPage(), b);
      DropTable(w0, w, d, i, next, curPageDir, b, n);
      tabs := tabs - {t};
      FallWorkable(Releasing(w0, d, next), View(), curPageDir, StartPage(), b, n, BreakPage());
    }

    /** `task_destroy`, as far as memory goes.  The frames of the address space are freed, its private tables and its
        directory go (w is the picture before that), and no other address space loses anything but kernel pages above the
        new break.  With the tables, the directory and the task given back, the kernel break falls; whether everybody
        still owns their frames is decided by whether that was safe. */
    method DestroySpace(d: nat, gives: seq<nat>) returns (ghost w: World)
      requires Ok() && d in dirs && d != curPageDir && d != taskDir && ShapeOk(View().space, d) && |gives| == 1026
      requires StartPage() <= BreakPage() - AllGiven(dirs[d].tables, gives)
      modifies this`tabs, this`dirs, this`frames, this`kheapSize
      ensures Working() && d !in dirs
      ensures w in Torn(old(View()), d, PAGES) && HeapState(Gone(w, d), curPageDir, StartPage(), old(BreakPage()))
      ensures View() in Fallen(Gone(w, d), curPageDir, old(BreakPage()), AllGiven(old(dirs)[d].tables, gives))
      ensures Ok() <==> Safe(Gone(w, d), curPageDir, StartPage(), old(BreakPage()), AllGiven(old(dirs)[d].tables, gives))
    {
      w := TearSpace(d);
      FreeRest(d, gives);
    }

    /** Lines 212-218 of `task_destroy`, and what they do to ownership. */
    method FreeRest(d: nat, gives: seq<nat>)
      requires Working() && d in dirs && d != curPageDir && d != taskDir && ShapeOk(View().space, d) && |gives| == 1026
      requires StartPage() <= BreakPage() - AllGiven(dirs[d].tables, gives)
      requires Gone(View(), d) in Sound(curPageDir, StartPage(), BreakPage())
      modifies this`tabs, this`dirs, this`frames, this`kheapSize
      ensures Working() && d !in dirs
      ensures HeapState(Gone(old(View()), d), curPageDir, StartPage(), old(BreakPage()))
      ensures View() in Fallen(Gone(old(View()), d), curPageDir, old(BreakPage()), AllGiven(old(dirs)[d].tables, gives))
      ensures Ok() <==> Safe(Gone(old(View()), d), curPageDir, StartPage(), old(BreakPage()), AllGiven(old(dirs)[d].tables, gives))
    {
      ghost var w, v, b, n := View(), Gone(View(), d), BreakPage(), AllGiven(dirs[d].tables, gives);
      FreeAll(d, gives);
      DirGone(w, View(), d, curPageDir, b, n);
      FallState(v, View(), curPageDir, StartPage(), b, n, BreakPage());
    }

    /** First loop of `task_destroy`: the kernel heap stays in order. */
    method TearSpace(d: nat) returns (ghost w: World)
      requires Ok() && d in dirs && d != curPageDir && d != taskDir
      modifies this`tabs, this`dirs, this`frames
      ensures Working() && d in dirs && w == View() && ShapeOk(w.space, d)
      ensures dirs[d].tables == old(dirs)[d].tables && d != taskDir
      ensures w in Torn(old(View()), d, PAGES) && Gone(w, d) in Sound(curPageDir, StartPage(), BreakPage())
    {
      ghost var w0 := View();
      SoundWorkable(w0, curPageDir, StartPage(), BreakPage());
      TearDown(d);
      w := View();
      assert KeepsTables(w0.space, w.space, d);
      TearExclusive(w0, w, d, PAGES);
      ClearExclusive(w, d);
      DestroyKept(w0, w, d, curPageDir, StartPage(), BreakPage());
      TornWorkable(w0, w, d, curPageDir, StartPage(), BreakPage());
    }

    /** Lines 212, 213 and 218 of `task_destroy`. */
    method FreeAll(d: nat, gives: seq<nat>)
      requires Working() && d in dirs && d != curPageDir && d != taskDir && ShapeOk(View().space, d) && |gives| == 1026
      requires StartPage() <= BreakPage() - AllGiven(dirs[d].tables, gives)
      modifies this`tabs, this`dirs, this`frames, this`kheapSize
      ensures Working() && BreakPage() == old(BreakPage()) - AllGiven(old(dirs)[d].tables, gives)
      ensures View() in Fallen(Gone(old(View()), d), curPageDir, old(BreakPage()), AllGiven(old(dirs)[d].tables, gives))
    {
      ghost var v, b, tables := Gone(View(), d), BreakPage(), dirs[d].tables;
      ClearPageDir(d, gives);
      FreeOwner(v, b, Given(tables, gives, |tables|), gives[1024], gives[1025], AllGiven(tables, gives));
    }

    /** The directory and the task. */
    method FreeOwner(ghost v: World, ghost b: int, ghost n: nat, m1: nat, m2: nat, ghost total: nat)
      requires Working() && StartPage() <= BreakPage() - m1 - m2 && View() in Fallen(v, curPageDir, b, n) && BreakPage() == b - n
      requires total == n + m1 + m2
      modifies this`tabs, this`dirs, this`frames, this`kheapSize
      ensures Working() && BreakPage() == b - total && View() in Fallen(v, curPageDir, b, total)
    {
      FallMore(v, b, n, m1, n + m1);
      FallMore(v, b, n + m1, m2, total);
    }

    /** A further fall, total pages in all. */
    method FallMore(ghost v: World, ghost b: int, ghost n: nat, m: nat, ghost total: nat)
      requires Working() && StartPage() <= BreakPage() - m && View() in Fallen(v, curPageDir, b, n) && BreakPage() == b - n
      requires total == n + m
      modifies this`tabs, this`dirs, this`frames, this`kheapSize
      ensures Working() && BreakPage() == b - total && View() in Fallen(v, curPageDir, b, total)
    {
      ghost var w, p := View(), BreakPage();
      Lower(m);
      FallTwice(v, w, View(), curPageDir, b, n, p, m, total);
    }

    // -------------------------------------------------------------- the kernel break

    /** `kvm_page_alloc_zeroed`: a page of zeros at the break. */
    method KvmPageAllocZeroed() returns (r: int, ghost f: nat)
      requires Working() && BreakPage() < KSTACK_PAGE && FreeFrames(View().used, memsize) != {}
      modifies this`tabs, this`dirs, this`frames, this`mem, this`kheapSize
      ensures taskDir in dirs && r == old(kheapStart + kheapSize) && BreakPage() == old(BreakPage()) + 1
      ensures f in FreeFrames(old(View()).used, memsize) && forall g :: 0 <= g < f ==> g in old(View()).used
      ensures View() in Rose(old(View()), curPageDir, old(BreakPage()), f)
    {
      BreakAbove(kheapStart, kheapSize);
      r := kheapStart + kheapSize;
      f := MapCleared(r / 4096);
      kheapSize := kheapSize + 4096;
    }

    /** Its calls: the lowest free frame is mapped and, through the running task's tables, cleared. */
    method MapCleared(p: int) returns (ghost f: nat)
      requires taskDir in dirs && KernelMaps(View().space, curPageDir)
      requires 0 <= p < KSTACK_PAGE && FreeFrames(View().used, memsize) != {}
      modifies this`tabs, this`dirs, this`frames, this`mem
      ensures taskDir in dirs
      ensures f in FreeFrames(old(View()).used, memsize) && forall g :: 0 <= g < f ==> g in old(View()).used
      ensures View() in Rose(old(View()), curPageDir, p, f)
    {
      ghost var w := View();
      var frame := FrameAlloc();
      var at := PageMap(curPageDir, p, frame, PF_PRES | PF_RW);
      f := frame;
      KernelFlagBits();
      BreakMap(w.space, curPageDir, p, f, KERNEL_FLAGS, at, Entry(KERNEL_FLAGS, f));
      assert PageAt(w.space, View().space, curPageDir, p, Entry(KERNEL_FLAGS, f), taskDir, p);
      mem := mem[FrameOf(Space(tabs, dirs), taskDir, p) := ZeroPage()];
    }

    /** The calls `ksbrk` makes to raise the break n pages; the frames are those taken, in order.  Nobody loses a frame. */
    method Rise(n: nat) returns (ghost fs: seq<nat>)
      requires Working() && BreakPage() + n <= KSTACK_PAGE && n <= |FreeFrames(View().used, memsize)|
      modifies this`tabs, this`dirs, this`frames, this`mem, this`kheapSize
      ensures Working() && BreakPage() == old(BreakPage()) + n
      ensures |fs| == n && View() in Risen(old(View()), curPageDir, old(BreakPage()), fs)
      ensures |FreeFrames(View().used, memsize)| == |FreeFrames(old(View()).used, memsize)| - n
      ensures old(Ok()) ==> Ok()
    {
      ghost var w0, b, ok := View(), BreakPage(), Ok();
      fs := Raise(n);
      if ok {
        RiseState(w0, View(), curPageDir, StartPage(), b, fs, BreakPage());
      }
    }

    /** The loop of a rise. */
    method Raise(n: nat) returns (ghost fs: seq<nat>)
      requires Working() && BreakPage() + n <= KSTACK_PAGE && n <= |FreeFrames(View().used, memsize)|
      modifies this`tabs, this`dirs, this`frames, this`mem, this`kheapSize
      ensures Working() && BreakPage() == old(BreakPage()) + n
      ensures |fs| == n && View() in Risen(old(View()), curPageDir, old(BreakPage()), fs)
      ensures |FreeFrames(View().used, memsize)| == |FreeFrames(old(View()).used, memsize)| - n
    {
      ghost var w0, b := View(), BreakPage();
      fs := [];
      RiseStart(w0, curPageDir, StartPage(), b);
      var i := 0;
      while i < n
        invariant i <= n && Working() && |fs| == i && BreakPage() == b + i && View() in Risen(w0, curPageDir, b, fs)
        invariant |FreeFrames(View().used, memsize)| == |FreeFrames(w0.used, memsize)| - i
      {
        fs := RaiseOne(w0, b, fs);
        i := i + 1;
      }
    }

    /** One round. */
    method RaiseOne(ghost w0: World, ghost b: int, ghost fs: seq<nat>) returns (ghost gs: seq<nat>)
      requires Working() && BreakPage() == b + |fs| < KSTACK_PAGE && |FreeFrames(View().used, memsize)| > 0
      requires View() in Risen(w0, curPageDir, b, fs)
      modifies this`tabs, this`dirs, this`frames, this`mem, this`kheapSize
      ensures Working() && BreakPage() == b + |gs| && |gs| == |fs| + 1 && View() in Risen(w0, curPageDir, b, gs)
      ensures |FreeFrames(View().used, memsize)| == |FreeFrames(old(View()).used, memsize)| - 1
    {
      ghost var w, p := View(), BreakPage();
      var r;
      ghost var f;
      r, f := KvmPageAllocZeroed();
      gs := fs + [f];
      RoseWorkable(w, View(), curPageDir, StartPage(), p, f, BreakPage());
      RiseStep(w0, w, View(), curPageDir, b, fs, f, gs, p);
      OneFrameLess(w.used, f, memsize);
    }

    /** `kvm_page_free`: it is the page at the break, above the last page of the heap, whose frame goes. */
    method KvmPageFree()
      requires Working() && StartPage() < BreakPage()
      modifies this`tabs, this`dirs, this`frames, this`kheapSize
      ensures taskDir in dirs && BreakPage() == old(BreakPage()) - 1
      ensures View() in Fell(old(View()), curPageDir, old(BreakPage()))
    {
      BreakBelow(kheapStart, kheapSize);
      var addr := kheapStart + kheapSize;
      FreeMapped(addr / 4096, BreakPage());
      kheapSize := kheapSize - 4096;
    }

    /** Its two calls: the frame `get_phys` names is free again and the page unmapped. */
    method FreeMapped(p: int, ghost b: int)
      requires Movable(View().space, curPageDir, StartPage(), p) && b == p
      modifies this`tabs, this`dirs, this`frames
      ensures View() in Fell(old(View()), curPageDir, b) && dirs.Keys == old(dirs).Keys
    {
      ghost var w := View();
      PhysFrame(w.space, curPageDir, p);
      FrameFree(GetPhys(Space(tabs, dirs), curPageDir, 4096 * p) / 4096);
      var at := PageMap(curPageDir, p, 0, 0);
      assert (0 as bv32) & ENTRY_FLAGS == 0;
      BreakMap(w.space, curPageDir, p, 0, 0, at, NO_ENTRY);
    }

    /** The calls `ksbrk` makes to lower the break n pages.  Everybody keeps their frames exactly when that was safe. */
    method Fall(n: nat)
      requires Working() && StartPage() <= BreakPage() - n
      modifies this`tabs, this`dirs, this`frames, this`kheapSize
      ensures Working() && BreakPage() == old(BreakPage()) - n
      ensures View() in Fallen(old(View()), curPageDir, old(BreakPage()), n)
      ensures old(Ok()) ==> (Ok() <==> old(Safe(View(), curPageDir, StartPage(), BreakPage(), n)))
    {
      ghost var w0, b, ok := View(), BreakPage(), Ok();
      Lower(n);
      if ok {
        FallState(w0, View(), curPageDir, StartPage(), b, n, BreakPage());
      }
    }

    /** The loop of a fall. */
    method Lower(n: nat)
      requires Working() && StartPage() <= BreakPage() - n
      modifies this`tabs, this`dirs, this`frames, this`kheapSize
      ensures Working() && BreakPage() == old(BreakPage()) - n
      ensures View() in Fallen(old(View()), curPageDir, old(BreakPage()), n)
    {
      ghost var w0, b := View(), BreakPage();
      FallStart(w0, curPageDir, StartPage(), b);
      var i := 0;
      while i < n
        invariant i <= n && Working() && BreakPage() == b - i && View() in Fallen(w0, curPageDir, b, i)
      {
        var next := i + 1;
        LowerOne(w0, b, i, next);
        i := next;
      }
    }

    /** One round. */
    method LowerOne(ghost w0: World, ghost b: int, ghost i: nat, ghost next: nat)
      requires Working() && StartPage() < BreakPage() == b - i && View() in Fallen(w0, curPageDir, b, i) && next == i + 1
      modifies this`tabs, this`dirs, this`frames, this`kheapSize
      ensures Working() && BreakPage() == b - next && View() in Fallen(w0, curPageDir, b, next)
    {
      ghost var w, p := View(), BreakPage();
      KvmPageFree();
      FellWorkable(w, View(), curPageDir, StartPage(), p, BreakPage());
      FallStep(w0, w, View(), curPageDir, b, i, next, p);
    }

    // -------------------------------------------------------------- the user heap

    ghost function HeapEndPage(): int
      reads this
    {
      uheapEnd / 4096
    }

    /** The running task's heap: aligned, below the stack, and exactly its pages are mapped. */
    ghost predicate HeapOk()
      reads this
    {
      && Ok() && HeapPages(View().space, taskDir, uheapBegin / 4096, HeapEndPage())
    }

    /** Lines 186-189 of `execve`: an empty heap above the program that ends at addr.  Between there and the stack nothing
        is mapped. */
    method BeginHeap(addr: int)
      requires Ok() && UMEM_BEGIN <= addr < USTACK_BEGIN
      requires ShapeOk(View().space, taskDir) && forall q :: HeapStart(addr) / 4096 <= q < USTACK_PAGE ==> !Has(View().space, taskDir, q)
      modifies this`uheapBegin, this`uheapEnd
      ensures HeapOk() && uheapBegin == uheapEnd == HeapStart(addr)
    {
      HeapStartPage(addr);
      uheapBegin := HeapStart(addr);
      uheapEnd := uheapBegin;
    }

    /** A page of zeros at page p, where the heap ends. */
    method AddLast(p: int, ghost begin: int) returns (ghost f: nat)
      requires Ok() && p < USTACK_PAGE && HeapPages(View().space, taskDir, begin, p) && FreeFrames(View().used, memsize) != {}
      modifies this`tabs, this`dirs, this`frames, this`mem
      ensures Ok() && HeapPages(View().space, taskDir, begin, p + 1)
      ensures f in FreeFrames(old(View()).used, memsize) && forall g :: 0 <= g < f ==> g in old(View()).used
      ensures View() in Added(old(View()), taskDir, p, f)
    {
      ghost var w := View();
      ghost var at;
      f, at := MapUser(p);
      PageAdded(w, taskDir, p, f, at);
      GrowHeapPages(w, View(), taskDir, begin, p, f);
      AddSound(w, taskDir, p, f, USER_FLAGS, at, ZeroPage(), curPageDir, StartPage(), BreakPage());
    }

    /** Its calls: the lowest free frame is mapped and cleared. */
    method MapUser(p: int) returns (ghost f: nat, ghost at: nat)
      requires taskDir in dirs && PagingSpec.Valid(View().space) && KSTACK_PAGE <= p < PAGES && FreeFrames(View().used, memsize) != {}
      modifies this`tabs, this`dirs, this`frames, this`mem
      ensures taskDir in dirs && f in FreeFrames(old(View()).used, memsize) && forall g :: 0 <= g < f ==> g in old(View()).used
      ensures at != 0 && at !in old(tabs) && View() == AddPage(old(View()), taskDir, p, f, USER_FLAGS, at, ZeroPage())
    {
      ghost var w := View();
      var frame := FrameAlloc();
      var a := PageMap(taskDir, p, frame, PF_PRES | PF_RW | PF_USER);
      f, at := frame, a;
      AddLookup(w, taskDir, p, f, USER_FLAGS, at, ZeroPage(), taskDir, p);
      mem := mem[FrameOf(Space(tabs, dirs), taskDir, p) := ZeroPage()];
    }

    /** `uvm_page_alloc`: NULL at the stack, else the address of a new page of zeros, in the lowest free frame. */
    method UvmPageAlloc() returns (r: int, ghost f: nat)
      requires HeapOk() && (uheapEnd < USTACK_BEGIN ==> FreeFrames(View().used, memsize) != {})
      modifies this`tabs, this`dirs, this`frames, this`mem, this`uheapEnd
      ensures HeapOk()
      ensures old(uheapEnd) >= USTACK_BEGIN ==> r == 0 && View() == old(View()) && uheapEnd == old(uheapEnd)
      ensures old(uheapEnd) < USTACK_BEGIN ==>
                && r == old(uheapEnd) && uheapEnd == old(uheapEnd) + 4096 && HeapEndPage() == old(HeapEndPage()) + 1
                && f in FreeFrames(old(View()).used, memsize) && (forall g :: 0 <= g < f ==> g in old(View()).used)
                && View() in Added(old(View()), taskDir, old(HeapEndPage()), f)
                && Lookup(View().space, taskDir, old(HeapEndPage())) == Entry(7, f)
                && f in mem && |mem[f]| == 4096 && forall k :: 0 <= k < 4096 ==> mem[f][k] == 0
    {
      if uheapEnd < USTACK_BEGIN {
        r := uheapEnd;
        ghost var w := View();
        PageBelow(uheapEnd + 4096);
        f := AddLast(uheapEnd / 4096, uheapBegin / 4096);
        UserPage(w, taskDir, uheapEnd / 4096, f, View());
        uheapEnd := uheapEnd + 4096;
      } else {
        r, f := 0, 0;
      }
    }

    /** The last page of a heap that ends at page p + 1 goes. */
    method FreeLast(p: int, ghost begin: int)
      requires Ok() && begin <= p && HeapPages(View().space, taskDir, begin, p + 1)
      modifies this`tabs, this`dirs, this`frames
      ensures Ok() && HeapPages(View().space, taskDir, begin, p) && View() in Removed(old(View()), taskDir, p)
    {
      ghost var w := View();
      LastPageThere(w, taskDir, begin, p + 1);
      var at := ReleasePage(taskDir, p);
      PageRemoved(w, taskDir, p, at);
      ShrinkHeapPages(w, View(), taskDir, begin, p + 1);
      FreeSound(w, taskDir, p, at, curPageDir, StartPage(), BreakPage());
    }

    /** `uvm_page_free`: the last page of the heap goes, and its frame with it. */
    method UvmPageFree()
      requires HeapOk() && uheapBegin < uheapEnd
      modifies this`tabs, this`dirs, this`frames, this`uheapEnd
      ensures HeapOk() && uheapEnd == old(uheapEnd) - 4096 && HeapEndPage() == old(HeapEndPage()) - 1
      ensures View() in Removed(old(View()), taskDir, HeapEndPage())
    {
      PageBelow(uheapEnd);
      FreeLast((uheapEnd - 4096) / 4096, uheapBegin / 4096);
      uheapEnd := uheapEnd - 4096;
    }

    /** One round of the growing loop. */
    method GrowOne(ghost w0: World, ghost first: int) returns (r: int)
      requires HeapOk() && View() in Grown(w0, taskDir, first, HeapEndPage())
      requires uheapEnd < USTACK_BEGIN ==> |FreeFrames(View().used, memsize)| > 0
      modifies this`tabs, this`dirs, this`frames, this`mem, this`uheapEnd
      ensures HeapOk() && View() in Grown(w0, taskDir, first, HeapEndPage())
      ensures r == 0 <==> old(uheapEnd) >= USTACK_BEGIN
      ensures r == 0 ==> View() == old(View()) && uheapEnd == old(uheapEnd)
      ensures r != 0 ==> uheapEnd == old(uheapEnd) + 4096
      ensures r != 0 ==> |FreeFrames(View().used, memsize)| == |FreeFrames(old(View()).used, memsize)| - 1
    {
      ghost var w, end := View(), HeapEndPage();
      ghost var f;
      r, f := UvmPageAlloc();
      if r != 0 {
        GrowStep(w0, w, View(), taskDir, first, end, f, HeapEndPage());
        OneFrameLess(w.used, f, memsize);
      }
    }

    /** The growing loop of `uvm_sbrk`: a page for every 4096 bytes begun, until the stack is reached. */
    method GrowHeap(incr: int) returns (ok: bool)
      requires HeapOk() && incr > 0
      requires incr <= 4096 * |FreeFrames(View().used, memsize)| || USTACK_BEGIN - uheapEnd <= 4096 * |FreeFrames(View().used, memsize)|
      modifies this`tabs, this`dirs, this`frames, this`mem, this`uheapEnd
      ensures HeapOk()
      ensures View() in Grown(old(View()), taskDir, old(HeapEndPage()), HeapEndPage())
      ensures ok <==> old(uheapEnd) + incr <= USTACK_BEGIN
      ensures uheapEnd == if ok then old(uheapEnd) + (incr + 4095) / 4096 * 4096 else USTACK_BEGIN
      ensures uheapEnd == old(uheapEnd) ==> View() == old(View())
    {
      ghost var w0, first, taken := View(), HeapEndPage(), 0;
      NothingYet(w0, taskDir, first);
      var left := incr;
      while left > 0
        invariant HeapOk() && View() in Grown(w0, taskDir, first, HeapEndPage())
        invariant taken >= 0 && left == incr - 4096 * taken && left > -4096 && uheapEnd == old(uheapEnd) + 4096 * taken
        invariant |FreeFrames(View().used, memsize)| == |FreeFrames(w0.used, memsize)| - taken
        invariant taken == 0 ==> View() == w0
        decreases left
      {
        var r := GrowOne(w0, first);
        if r == 0 { return false; }
        left := left - 4096;
        taken := taken + 1;
      }
      assert taken == (incr + 4095) / 4096;
      return true;
    }

    /** One round of the shrinking loop. */
    method ShrinkOne(ghost w0: World, ghost last: int)
      requires HeapOk() && uheapBegin < uheapEnd && View() in Shrunk(w0, taskDir, HeapEndPage(), last)
      modifies this`tabs, this`dirs, this`frames, this`uheapEnd
      ensures HeapOk() && uheapEnd == old(uheapEnd) - 4096
      ensures View() in Shrunk(w0, taskDir, HeapEndPage(), last)
    {
      ghost var w, end := View(), HeapEndPage();
      UvmPageFree();
      ShrinkStep(w0, w, View(), taskDir, end, last, HeapEndPage());
    }

    /** The shrinking loop of `uvm_sbrk`: only whole pages are given back. */
    method ShrinkHeap(incr: int)
      requires HeapOk() && incr < 0 && uheapBegin <= uheapEnd + incr
      modifies this`tabs, this`dirs, this`frames, this`uheapEnd
      ensures HeapOk()
      ensures uheapEnd == old(uheapEnd) - -incr / 4096 * 4096
      ensures View() in Shrunk(old(View()), taskDir, HeapEndPage(), old(HeapEndPage()))
      ensures uheapEnd == old(uheapEnd) ==> View() == old(View())
    {
      ghost var w0, last, given := View(), HeapEndPage(), 0;
      NothingYet(w0, taskDir, last);
      var left := incr + 4095;
      while left < 0
        invariant HeapOk() && View() in Shrunk(w0, taskDir, HeapEndPage(), last)
        invariant given >= 0 && left == incr + 4095 + 4096 * given && left < 4096 && uheapEnd == old(uheapEnd) - 4096 * given
        invariant given == 0 ==> View() == w0
        decreases -left
      {
        ShrinkOne(w0, last);
        left := left + 4096;
        given := given + 1;
      }
      assert given == -incr / 4096;
    }

    /** `uvm_sbrk`, for increments that do not go below address 0; -1 is failure.  An increment past the top of the
        address space slips through the check: it fails after taking every page up to the stack. */
    method UvmSbrk(incr: int) returns (r: int)
      requires HeapOk() && -0x8000_0000 <= incr < 0x8000_0000 && 0 <= uheapEnd + incr
      requires incr <= 4096 * |FreeFrames(View().used, memsize)| || USTACK_BEGIN - uheapEnd <= 4096 * |FreeFrames(View().used, memsize)|
      modifies this`tabs, this`dirs, this`frames, this`mem, this`uheapEnd
      ensures HeapOk()
      ensures r == if uheapBegin <= old(uheapEnd) + incr <= USTACK_BEGIN then old(uheapEnd) else -1
      ensures r != -1 && incr >= 0 ==> uheapEnd == old(uheapEnd) + (incr + 4095) / 4096 * 4096
      ensures r != -1 && incr < 0 ==> uheapEnd == old(uheapEnd) - -incr / 4096 * 4096
      ensures r == -1 ==> uheapEnd == if old(uheapEnd) + incr >= WORD then USTACK_BEGIN else old(uheapEnd)
      ensures uheapEnd == old(uheapEnd) ==> View() == old(View())
      ensures uheapEnd > old(uheapEnd) ==> View() in Grown(old(View()), taskDir, old(HeapEndPage()), HeapEndPage())
      ensures uheapEnd < old(uheapEnd) ==> View() in Shrunk(old(View()), taskDir, HeapEndPage(), old(HeapEndPage()))
    {
      r := uheapEnd;
      if incr > 0 {
        if (uheapEnd + incr) % WORD > USTACK_BEGIN {
          return -1;
        }
        var ok := GrowHeap(incr);
        if !ok { return -1; }
      } else if incr < 0 {
        if (uheapEnd + incr) % WORD < uheapBegin {
          return -1;
        }
        ShrinkHeap(incr);
      }
    }
  }

  // ---------------------------------------------------------------- a page loses its frame

  /** Frame 0 backs no private page and no page lo .. b - 1 of the kernel heap. */
  ghost predicate NotZero(w: World, k: nat, lo: int, b: int)
    requires Shaped(w.space) && k in w.space.dirs && ShapeOk(w.space, k) && 0 <= lo && b <= PAGES
  {
    !Private(w.space, 0) && forall q {:trigger FrameOf(w.space, k, q)} :: lo <= q < b ==> FrameOf(w.space, k, q) != 0
  }

  /** After boot and a first table nothing has frame 0, and the page at the break is absent. */
  lemma FirstTable(w0: World, w: World, k: nat, tables: seq<nat>, n: int, fs: seq<nat>, c: int)
    requires StackMapped(w0, k, tables, n, UMEM_PAGE) && 1 <= n && w in Risen(w0, k, n, fs) && |fs| > 0 && c == n + |fs| < KSTACK_PAGE
    ensures Shaped(w.space) && AbsentBreak(w.space, k, c) && NotZero(w, k, n, c)
    ensures forall q :: UMEM_PAGE <= q < PAGES ==> !Has(w.space, k, q)
  {
    BootState(w0, k, tables, n);
    RiseHeap(w0, w, k, n, n, fs);
    RisePrivate(w0, w, k, n, fs, 0);
    forall q | n <= q < c
      ensures FrameOf(w.space, k, q) != 0
    {
      assert RisenAt(w0, w, n, fs, k, q);
    }
    forall q | UMEM_PAGE <= q < PAGES
      ensures !Has(w.space, k, q)
    {
      assert RisenAt(w0, w, n, fs, k, q);
      assert Has(w0.space, k, q) <==> q < UMEM_PAGE;
    }
  }

  /** A table is freed and the break falls: frame 0, in use since boot, is free. */
  method FreeZero(m: Mmu)
    requires m.HeapOk() && AbsentBreak(m.View().space, m.curPageDir, m.BreakPage()) && m.StartPage() + 2 < m.BreakPage()
    requires NotZero(m.View(), m.curPageDir, m.StartPage(), m.BreakPage())
    modifies m`tabs, m`dirs, m`frames, m`kheapSize
    ensures m.HeapOk() && m.BreakPage() == old(m.BreakPage()) - 2 && 0 !in m.View().used
    ensures |FreeFrames(m.View().used, m.memsize)| >= |FreeFrames(old(m.View()).used, m.memsize)|
  {
    ghost var w, b := m.View(), m.BreakPage();
    m.Fall(2);
    FallUserHeap(w, m.View(), m.curPageDir, b, 2, m.taskDir, m.uheapBegin / 4096, m.HeapEndPage());
    ZeroFreed(w, m.View(), m.curPageDir, b, 2);
    SubsetCard(FreeFrames(w.used, m.memsize), FreeFrames(m.View().used, m.memsize));
  }

  /** The user heap grows by a page: it gets frame 0. */
  method TakeZero(m: Mmu) returns (ghost p: int)
    requires m.HeapOk() && m.uheapEnd < USTACK_BEGIN && 0 < m.memsize && 0 !in m.View().used
    modifies m`tabs, m`dirs, m`frames, m`mem, m`uheapEnd
    ensures m.Ok() && p == old(m.HeapEndPage()) && KSTACK_PAGE <= p < PAGES && ShapeOk(m.View().space, m.taskDir)
    ensures Has(m.View().space, m.taskDir, p) && FrameOf(m.View().space, m.taskDir, p) == 0
    ensures |FreeFrames(m.View().used, m.memsize)| == |FreeFrames(old(m.View()).used, m.memsize)| - 1
  {
    ghost var w := m.View();
    p := m.HeapEndPage();
    assert 0 in FreeFrames(w.used, m.memsize);
    ghost var f;
    var r;
    r, f := m.UvmPageAlloc();
    assert f == 0;
    UserFlagBits();
    assert SetAt(w.space, m.View().space, m.taskDir, p, Entry(USER_FLAGS, 0), m.taskDir, p);
    OneFrameLess(w.used, f, m.memsize);
  }

  /** The next table is taken and freed: the page has lost its frame. */
  method LoseZero(m: Mmu, ghost p: int)
    requires m.Ok() && m.Working() && KSTACK_PAGE <= p < PAGES && ShapeOk(m.View().space, m.taskDir)
    requires Has(m.View().space, m.taskDir, p) && FrameOf(m.View().space, m.taskDir, p) == 0
    requires m.BreakPage() + 2 < KSTACK_PAGE && |FreeFrames(m.View().used, m.memsize)| >= 2
    modifies m`tabs, m`dirs, m`frames, m`mem, m`kheapSize
    ensures m.taskDir in m.dirs && ShapeOk(m.View().space, m.taskDir)
    ensures Has(m.View().space, m.taskDir, p) && FrameOf(m.View().space, m.taskDir, p) == 0 && 0 !in m.View().used
    ensures !Exclusive(m.View())
  {
    ghost var w, b := m.View(), m.BreakPage();
    ghost var fs := m.Rise(2);
    ghost var w1, c := m.View(), m.BreakPage();
    RisePage(w, w1, m.curPageDir, m.StartPage(), b, fs, m.taskDir, p, c);
    m.Lower(2);
    ZeroLost(w1, m.View(), m.curPageDir, c, 2, m.taskDir, p);
  }

  /** The kernel heap has risen since it last fell, nothing has frame 0, and the user heap can grow. */
  ghost predicate Unfallen(m: Mmu)
    reads m
  {
    && m.HeapOk() && m.uheapEnd < USTACK_BEGIN && m.StartPage() + 2 < m.BreakPage() && 3 <= |FreeFrames(m.View().used, m.memsize)|
    && AbsentBreak(m.View().space, m.curPageDir, m.BreakPage()) && NotZero(m.View(), m.curPageDir, m.StartPage(), m.BreakPage())
  }

  /** From any such state: a table is freed, the program takes a page, the next table is taken and freed.  The program's
      page is then mapped to frame 0, and frame 0 is free for the next that asks. */
  method PageLosesFrame(m: Mmu) returns (ghost p: int)
    requires Unfallen(m)
    modifies m
    ensures m.taskDir in m.dirs && ShapeOk(m.View().space, m.taskDir) && KSTACK_PAGE <= p < PAGES
    ensures Has(m.View().space, m.taskDir, p) && FrameOf(m.View().space, m.taskDir, p) == 0 && 0 !in m.View().used
    ensures !Exclusive(m.View())
  {
    FreeZero(m);
    p := TakeZero(m);
    LoseZero(m, p);
  }

  /** Boot, a first table, and an empty user heap lead to such a state. */
  method BootUnfallen(memsize: FrameCount, n: nat, ram: map<nat, Page>, addr: int) returns (m: Mmu)
    requires 1 <= n && n + 4 <= KSTACK_PAGE && n + 1030 <= memsize && forall f :: 0 <= f < FRAMES ==> f in ram
    requires UMEM_BEGIN <= addr < USTACK_BEGIN - 0x40_0000
    ensures fresh(m) && Unfallen(m)
  {
    m := BootWithTable(memsize, n, ram);
    HeapStartPage(addr);
    m.BeginHeap(addr);
  }

  /** Boot and a first table. */
  method BootWithTable(memsize: FrameCount, n: nat, ram: map<nat, Page>) returns (m: Mmu)
    requires 1 <= n && n + 4 <= KSTACK_PAGE && n + 1030 <= memsize && forall f :: 0 <= f < FRAMES ==> f in ram
    ensures fresh(m) && m.Ok() && m.taskDir == m.curPageDir && m.StartPage() == n && m.BreakPage() == n + 3
    ensures Shaped(m.View().space) && AbsentBreak(m.View().space, m.curPageDir, n + 3) && NotZero(m.View(), m.curPageDir, n, n + 3)
    ensures forall q :: UMEM_PAGE <= q < PAGES ==> !Has(m.View().space, m.curPageDir, q)
    ensures 3 <= |FreeFrames(m.View().used, m.memsize)|
  {
    m := new Mmu(memsize, n, ram);
    PageNumber(n);
    RaiseFirst(m, n);
  }

  /** The rise that the first table needs. */
  method RaiseFirst(m: Mmu, ghost n: nat)
    requires m.Ok() && 1 <= n && n + 4 <= KSTACK_PAGE && m.StartPage() == n == m.BreakPage() && m.curPageDir in m.dirs
    requires StackMapped(m.View(), m.curPageDir, m.dirs[m.curPageDir].tables, n, UMEM_PAGE)
    requires 6 <= |FreeFrames(m.View().used, m.memsize)|
    modifies m`tabs, m`dirs, m`frames, m`mem, m`kheapSize
    ensures m.Ok() && m.BreakPage() == n + 3
    ensures Shaped(m.View().space) && AbsentBreak(m.View().space, m.curPageDir, n + 3) && NotZero(m.View(), m.curPageDir, n, n + 3)
    ensures forall q :: UMEM_PAGE <= q < PAGES ==> !Has(m.View().space, m.curPageDir, q)
    ensures 3 <= |FreeFrames(m.View().used, m.memsize)|
  {
    ghost var w, k := m.View(), m.curPageDir;
    SoundWorkable(w, k, n, n);
    ghost var fs := m.Rise(3);
    FirstTable(w, m.View(), k, w.space.dirs[k].tables, n, fs, n + 3);
  }
}
