/** Two-level page tables of kernel/src/mm/paging.c as values.

    Addresses are split as the hardware does (32-bit paging, section 4.3 of Intel SDM volume 3A): page number
    p = addr >> 12, directory index p / 1024, table index p % 1024.  A page table is known by the address it was
    allocated at; 0 is NULL.  Page directories share a table when they hold the same address. */
module PagingSpec {

  const PAGES: int := 0x10_0000
  /** First page of the kernel stack, 0x0FC00000 >> 12; everything from here up belongs to one address space. */
  const KSTACK_PAGE: int := 0xFC00
  /** Directory entries below this one are shared by all address spaces. */
  const SHARED: int := 63

  /** Bits of the frame bitmap. */
  const FRAMES: nat := 32 * 32767

  const PF_PRES: bv32 := 1
  const PF_RW: bv32 := 2
  const PF_USER: bv32 := 4
  /** The flags a page table entry can hold; bit 7 is always zero. */
  const ENTRY_FLAGS: bv32 := 0x17F
  /** The flags a directory entry takes over when its table is made: all but present, dirty and size. */
  const PDE_FLAGS: bv32 := 0x13E

  datatype Entry = Entry(flags: bv32, frame: nat)

  type Table = seq<Entry>

  const NO_ENTRY := Entry(0, 0)

  function EmptyTable(): Table { seq(1024, _ => NO_ENTRY) }

  /** `struct page_dir_t`: table addresses, and the flags of the entries the hardware reads. */
  datatype Dir = Dir(tables: seq<nat>, pdes: seq<bv32>)

  /** Page tables by address, page directories by address. */
  datatype Space = Space(tabs: map<nat, Table>, dirs: map<nat, Dir>)

  predicate Present(e: Entry) { e.flags & PF_PRES != 0 }

  // ---------------------------------------------------------------- well-formed spaces

  predicate ShapeOk(s: Space, d: nat) {
    && d in s.dirs && |s.dirs[d].tables| == 1024 && |s.dirs[d].pdes| == 1024
    && forall i :: 0 <= i < 1024 ==> s.dirs[d].tables[i] == 0 || s.dirs[d].tables[i] in s.tabs
  }

  ghost predicate Shaped(s: Space) {
    && (forall d :: d in s.dirs ==> ShapeOk(s, d))
    && (forall t :: t in s.tabs ==> t != 0 && |s.tabs[t]| == 1024)
    && (forall t, k :: t in s.tabs && 0 <= k < |s.tabs[t]| ==> s.tabs[t][k].flags & ENTRY_FLAGS == s.tabs[t][k].flags)
  }

  /** The directory entries the hardware reads are marked present exactly where the kernel has a table.  Where they point is
      not modelled. */
  ghost predicate PdesOk(s: Space) {
    forall d, i {:trigger s.dirs[d].pdes[i]} :: d in s.dirs && ShapeOk(s, d) && 0 <= i < 1024 ==>
      (s.dirs[d].pdes[i] & PF_PRES != 0 <==> s.dirs[d].tables[i] != 0)
  }

  /** A table is at one directory index, and from 63 up in one directory. */
  ghost predicate Owned(s: Space) {
    forall d, i, e, j {:trigger s.dirs[d].tables[i], s.dirs[e].tables[j]}
      | d in s.dirs && e in s.dirs && ShapeOk(s, d) && ShapeOk(s, e) && 0 <= i < 1024 && 0 <= j < 1024 ::
      s.dirs[d].tables[i] == s.dirs[e].tables[j] != 0 ==> i == j && (i < SHARED || d == e)
  }

  ghost predicate Valid(s: Space) { Shaped(s) && PdesOk(s) && Owned(s) }

  // ---------------------------------------------------------------- translation

  /** What the two levels say about page p. */
  function Lookup(s: Space, d: nat, p: int): Entry
    requires ShapeOk(s, d) && 0 <= p < PAGES
  {
    var t := s.dirs[d].tables[p / 1024];
    if t == 0 || |s.tabs[t]| != 1024 then NO_ENTRY else s.tabs[t][p % 1024]
  }

  /** The table address the map will use: the existing one or a new one. */
  function TableFor(s: Space, d: nat, i: int, at: nat): nat
    requires ShapeOk(s, d) && 0 <= i < 1024
  {
    if s.dirs[d].tables[i] == 0 then at else s.dirs[d].tables[i]
  }

  /** First half of `page_map`: a missing table is made at `at`. */
  function WithTable(s: Space, d: nat, i: int, flags: bv32, at: nat): (u: Space)
    requires Shaped(s) && d in s.dirs && 0 <= i < 1024
    ensures d in u.dirs && |u.dirs[d].tables| == |u.dirs[d].pdes| == 1024
    ensures u.dirs[d].tables[i] == TableFor(s, d, i, at) && u.dirs[d].tables[i] in u.tabs && |u.tabs[u.dirs[d].tables[i]]| == 1024
  {
    assert ShapeOk(s, d);
    if s.dirs[d].tables[i] != 0 then s
    else Space(s.tabs[at := EmptyTable()],
               s.dirs[d := Dir(s.dirs[d].tables[i := at], s.dirs[d].pdes[i := (flags & PDE_FLAGS) | PF_PRES])])
  }

  /** Second half: the entry is written and a writable page makes its table writable. */
  function WithEntry(u: Space, d: nat, p: int, frame: nat, flags: bv32): Space
    requires d in u.dirs && |u.dirs[d].tables| == |u.dirs[d].pdes| == 1024 && 0 <= p < PAGES
    requires u.dirs[d].tables[p / 1024] in u.tabs && |u.tabs[u.dirs[d].tables[p / 1024]]| == 1024
  {
    var i, k := p / 1024, p % 1024;
    var t := u.dirs[d].tables[i];
    Space(u.tabs[t := u.tabs[t][k := Entry(flags & ENTRY_FLAGS, frame)]],
          u.dirs[d := Dir(u.dirs[d].tables, u.dirs[d].pdes[i := u.dirs[d].pdes[i] | (flags & PF_RW)])])
  }

  /** `page_map`. */
  function Mapped(s: Space, d: nat, p: int, frame: nat, flags: bv32, at: nat): Space
    requires Shaped(s) && d in s.dirs && 0 <= p < PAGES
  {
    WithEntry(WithTable(s, d, p / 1024, flags, at), d, p, frame, flags)
  }

  lemma FlagBits(f: bv32)
    ensures (f & ENTRY_FLAGS) & ENTRY_FLAGS == f & ENTRY_FLAGS
    ensures ((f & PDE_FLAGS) | PF_PRES) & PF_PRES != 0
    ensures (0 as bv32) & ENTRY_FLAGS == 0
  {
  }

  lemma PdeKeepsPresent(pde: bv32, f: bv32)
    ensures (pde | (f & PF_RW)) & PF_PRES == pde & PF_PRES
  {
  }

  lemma TableShaped(s: Space, d: nat, i: int, flags: bv32, at: nat)
    requires Shaped(s) && d in s.dirs && 0 <= i < 1024 && at != 0
    ensures Shaped(WithTable(s, d, i, flags, at))
  {
    FlagBits(flags);
    var u := WithTable(s, d, i, flags, at);
    forall e | e in u.dirs
      ensures ShapeOk(u, e)
    {
      assert ShapeOk(s, e);
    }
  }

  lemma EntryShaped(u: Space, d: nat, p: int, frame: nat, flags: bv32)
    requires Shaped(u) && d in u.dirs && ShapeOk(u, d) && 0 <= p < PAGES && u.dirs[d].tables[p / 1024] != 0
    ensures Shaped(WithEntry(u, d, p, frame, flags))
  {
    FlagBits(flags);
    var v := WithEntry(u, d, p, frame, flags);
    forall e | e in v.dirs
      ensures ShapeOk(v, e)
    {
      assert ShapeOk(u, e);
    }
    var t := u.dirs[d].tables[p / 1024];
    assert v.tabs.Keys == u.tabs.Keys && forall x :: x in u.tabs && x != t ==> v.tabs[x] == u.tabs[x];
    forall x, k | x in v.tabs && 0 <= k < |v.tabs[x]|
      ensures v.tabs[x][k].flags & ENTRY_FLAGS == v.tabs[x][k].flags
    {
      if !(x == t && k == p % 1024) {
        assert v.tabs[x][k] == u.tabs[x][k];
      }
    }
  }

  lemma MapShaped(s: Space, d: nat, p: int, frame: nat, flags: bv32, at: nat)
    requires Shaped(s) && d in s.dirs && 0 <= p < PAGES && at != 0
    ensures Shaped(Mapped(s, d, p, frame, flags, at))
  {
    TableShaped(s, d, p / 1024, flags, at);
    var u := WithTable(s, d, p / 1024, flags, at);
    assert ShapeOk(u, d) && ShapeOk(s, d);
    EntryShaped(u, d, p, frame, flags);
  }

  lemma TablePdes(s: Space, d: nat, i: int, flags: bv32, at: nat)
    requires Shaped(s) && PdesOk(s) && d in s.dirs && 0 <= i < 1024 && at != 0
    ensures PdesOk(WithTable(s, d, i, flags, at))
  {
    FlagBits(flags);
    var u := WithTable(s, d, i, flags, at);
    forall e, j | e in u.dirs && ShapeOk(u, e) && 0 <= j < 1024
      ensures u.dirs[e].pdes[j] & PF_PRES != 0 <==> u.dirs[e].tables[j] != 0
    {
      assert ShapeOk(s, e) && (s.dirs[e].pdes[j] & PF_PRES != 0 <==> s.dirs[e].tables[j] != 0);
    }
  }

  lemma EntryPdes(u: Space, d: nat, p: int, frame: nat, flags: bv32)
    requires Shaped(u) && PdesOk(u) && d in u.dirs && ShapeOk(u, d) && 0 <= p < PAGES && u.dirs[d].tables[p / 1024] != 0
    ensures PdesOk(WithEntry(u, d, p, frame, flags))
  {
    var v := WithEntry(u, d, p, frame, flags);
    forall e, j | e in v.dirs && ShapeOk(v, e) && 0 <= j < 1024
      ensures v.dirs[e].pdes[j] & PF_PRES != 0 <==> v.dirs[e].tables[j] != 0
    {
      assert ShapeOk(u, e) && v.dirs[e].tables[j] == u.dirs[e].tables[j];
      var pde := u.dirs[e].pdes[j];
      PdeKeepsPresent(pde, flags);
      assert v.dirs[e].pdes[j] == if e == d && j == p / 1024 then pde | (flags & PF_RW) else pde;
      assert pde & PF_PRES != 0 <==> u.dirs[e].tables[j] != 0;
    }
  }

  lemma MapPdes(s: Space, d: nat, p: int, frame: nat, flags: bv32, at: nat)
    requires Shaped(s) && PdesOk(s) && d in s.dirs && 0 <= p < PAGES && at != 0
    ensures PdesOk(Mapped(s, d, p, frame, flags, at))
  {
    TableShaped(s, d, p / 1024, flags, at);
    TablePdes(s, d, p / 1024, flags, at);
    var u := WithTable(s, d, p / 1024, flags, at);
    assert ShapeOk(u, d) && ShapeOk(s, d);
    EntryPdes(u, d, p, frame, flags);
  }

  lemma MapOwned(s: Space, d: nat, p: int, frame: nat, flags: bv32, at: nat)
    requires Shaped(s) && Owned(s) && d in s.dirs && 0 <= p < PAGES && at != 0 && at !in s.tabs
    requires p / 1024 < SHARED ==> s.dirs[d].tables[p / 1024] != 0
    ensures Owned(Mapped(s, d, p, frame, flags, at))
  {
    var u := Mapped(s, d, p, frame, flags, at);
    forall a, i, b, j | a in u.dirs && b in u.dirs && 0 <= i < 1024 && 0 <= j < 1024 &&
        ShapeOk(u, a) && ShapeOk(u, b) && u.dirs[a].tables[i] == u.dirs[b].tables[j] != 0
      ensures i == j && (i < SHARED || a == b)
    {
      assert ShapeOk(s, a) && ShapeOk(s, b);
      assert s.dirs[a].tables[i] == 0 || s.dirs[a].tables[i] in s.tabs;
      assert s.dirs[b].tables[j] == 0 || s.dirs[b].tables[j] in s.tabs;
    }
  }

  /** Page q of e is page p of d: both directories hold the same table. */
  predicate SamePlace(s: Space, d: nat, p: int, e: nat, q: int)
    requires ShapeOk(s, d) && ShapeOk(s, e) && 0 <= p < PAGES && 0 <= q < PAGES
  {
    q == p && s.dirs[e].tables[p / 1024] == s.dirs[d].tables[p / 1024] != 0
  }

  /** `page_map` is an update of the map from page numbers to entries: the page gets its entry, no other page of
      the address space changes, and of another address space exactly that page if it shares the table. */
  lemma MapRefines(s: Space, d: nat, p: int, frame: nat, flags: bv32, at: nat, e: nat, q: int)
    requires Valid(s) && d in s.dirs && e in s.dirs && 0 <= p < PAGES && 0 <= q < PAGES && at != 0 && at !in s.tabs
    ensures var u := Mapped(s, d, p, frame, flags, at);
            && ShapeOk(u, e) && ShapeOk(s, e)
            && (e == d && q == p ==> Lookup(u, e, q) == Entry(flags & ENTRY_FLAGS, frame))
            && (e == d && q != p ==> Lookup(u, e, q) == Lookup(s, e, q))
            && (e != d && !SamePlace(s, d, p, e, q) ==> Lookup(u, e, q) == Lookup(s, e, q))
            && (SamePlace(s, d, p, e, q) ==> Lookup(u, e, q) == Entry(flags & ENTRY_FLAGS, frame))
  {
    var u := Mapped(s, d, p, frame, flags, at);
    MapShaped(s, d, p, frame, flags, at);
    assert ShapeOk(s, d) && ShapeOk(s, e);
    var i, j := p / 1024, q / 1024;
    var t := s.dirs[e].tables[j];
    assert t == 0 || t in s.tabs;
    if t != 0 && t == s.dirs[d].tables[i] {
      assert i == j;
      assert p % 1024 == q % 1024 ==> p == q;
    }
  }

  // ---------------------------------------------------------------- get_phys and page_flags

  /** `get_phys`: 0 when the page is absent. */
  function GetPhys(s: Space, d: nat, addr: int): int
    requires ShapeOk(s, d) && 0 <= addr < 0x1_0000_0000
  {
    var e := Lookup(s, d, addr / 4096);
    if Present(e) then e.frame * 4096 + addr % 4096 else 0
  }

  /** `page_flags`: the directory entry in the upper half, the page's own flags in the lower. */
  function PageFlags(s: Space, d: nat, p: int): bv32
    requires ShapeOk(s, d) && 0 <= p < PAGES
  {
    var up := s.dirs[d].pdes[p / 1024] << 16;
    if s.dirs[d].tables[p / 1024] != 0 && up & (PF_PRES << 16) == PF_PRES << 16
    then up | Lookup(s, d, p).flags else up
  }

  lemma HighBit(pde: bv32)
    ensures (pde << 16) & (PF_PRES << 16) == PF_PRES << 16 <==> pde & PF_PRES != 0
    ensures (pde << 16) & 0xFFFF == 0
  {
  }

  lemma LowHalf(up: bv32, f: bv32)
    requires up & 0xFFFF == 0 && f & ENTRY_FLAGS == f
    ensures (up | f) & 0xFFFF == f && (up | f) & ENTRY_FLAGS == f && ((up | f) & PF_PRES != 0 <==> f & PF_PRES != 0)
    ensures up & ENTRY_FLAGS == 0 && up & PF_PRES == 0
  {
  }

  /** The lower half of `page_flags` is what was mapped; passing the whole word on to `page_map` maps the same. */
  lemma FlagsRoundTrip(s: Space, d: nat, p: int)
    requires Valid(s) && d in s.dirs && 0 <= p < PAGES
    ensures ShapeOk(s, d)
    ensures var f := PageFlags(s, d, p);
            f & 0xFFFF == Lookup(s, d, p).flags && f & ENTRY_FLAGS == Lookup(s, d, p).flags
    ensures PageFlags(s, d, p) & PF_PRES != 0 <==> Present(Lookup(s, d, p))
  {
    assert ShapeOk(s, d);
    var pde, e := s.dirs[d].pdes[p / 1024], Lookup(s, d, p);
    HighBit(pde);
    LowHalf(pde << 16, e.flags);
  }

  // ---------------------------------------------------------------- sequences of page_map calls

  datatype MapCall = MapCall(page: int, frame: nat, flags: bv32, at: nat)

  /** Tables are made at unused addresses and never below the shared border. */
  ghost predicate LegalMap(s: Space, d: nat, c: MapCall) {
    && d in s.dirs && ShapeOk(s, d) && 0 <= c.page < PAGES && c.at != 0 && c.at !in s.tabs
    && (c.page / 1024 < SHARED ==> s.dirs[d].tables[c.page / 1024] != 0)
  }

  lemma MapValid(s: Space, d: nat, c: MapCall)
    requires Valid(s) && LegalMap(s, d, c)
    ensures Valid(Mapped(s, d, c.page, c.frame, c.flags, c.at)) && d in Mapped(s, d, c.page, c.frame, c.flags, c.at).dirs
  {
    MapShaped(s, d, c.page, c.frame, c.flags, c.at);
    MapPdes(s, d, c.page, c.frame, c.flags, c.at);
    MapOwned(s, d, c.page, c.frame, c.flags, c.at);
  }

  ghost predicate LegalMaps(s: Space, d: nat, cs: seq<MapCall>)
    requires Valid(s)
    decreases |cs|
  {
    cs == [] || (LegalMap(s, d, cs[0]) &&
                 (MapValid(s, d, cs[0]); LegalMaps(Mapped(s, d, cs[0].page, cs[0].frame, cs[0].flags, cs[0].at), d, cs[1..])))
  }

  ghost function AllMapped(s: Space, d: nat, cs: seq<MapCall>): Space
    requires Valid(s) && LegalMaps(s, d, cs)
    decreases |cs|
  {
    if cs == [] then s else
    MapValid(s, d, cs[0]);
    AllMapped(Mapped(s, d, cs[0].page, cs[0].frame, cs[0].flags, cs[0].at), d, cs[1..])
  }

  /** The plain map the tables refine: the entry of the last call for the page. */
  function LastFor(cs: seq<MapCall>, q: int, first: Entry): Entry
    decreases |cs|
  {
    if cs == [] then first
    else LastFor(cs[1..], q, if cs[0].page == q then Entry(cs[0].flags & ENTRY_FLAGS, cs[0].frame) else first)
  }

  /** After any sequence of `page_map` calls every page has the entry of its last call. */
  lemma {:induction false} MapsRefine(s: Space, d: nat, cs: seq<MapCall>, q: int)
    requires Valid(s) && d in s.dirs && LegalMaps(s, d, cs) && 0 <= q < PAGES
    ensures ShapeOk(s, d) && ShapeOk(AllMapped(s, d, cs), d)
    ensures Lookup(AllMapped(s, d, cs), d, q) == LastFor(cs, q, Lookup(s, d, q))
    decreases |cs|
  {
    assert ShapeOk(s, d);
    if cs != [] {
      var c := cs[0];
      MapValid(s, d, c);
      MapRefines(s, d, c.page, c.frame, c.flags, c.at, d, q);
      MapsRefine(Mapped(s, d, c.page, c.frame, c.flags, c.at), d, cs[1..], q);
    }
  }

  /** So `get_phys` gives the frame of the last call that mapped the page, plus the offset, or 0. */
  lemma GetPhysAfter(s: Space, d: nat, cs: seq<MapCall>, addr: int)
    requires Valid(s) && d in s.dirs && LegalMaps(s, d, cs) && 0 <= addr < 0x1_0000_0000
    ensures ShapeOk(s, d) && ShapeOk(AllMapped(s, d, cs), d)
    ensures var e := LastFor(cs, addr / 4096, Lookup(s, d, addr / 4096));
            GetPhys(AllMapped(s, d, cs), d, addr) == if Present(e) then e.frame * 4096 + addr % 4096 else 0
  {
    MapsRefine(s, d, cs, addr / 4096);
  }

  // ---------------------------------------------------------------- frames and contents

  type Page = seq<int>

  /** An address space picture with the frames in use and what each frame holds. */
  datatype World = World(space: Space, used: set<nat>, mem: map<nat, Page>)

  function FrameOf(s: Space, d: nat, p: int): nat
    requires ShapeOk(s, d) && 0 <= p < PAGES
  {
    Lookup(s, d, p).frame
  }

  predicate Has(s: Space, d: nat, p: int)
    requires ShapeOk(s, d) && 0 <= p < PAGES
  {
    Present(Lookup(s, d, p))
  }

  /** The frame f mapped at page 0 and unmapped again. */
  function Window(s: Space, cur: nat, f: nat, at: nat): Space
    requires Shaped(s) && cur in s.dirs && at != 0
  {
    MapShaped(s, cur, 0, f, PF_PRES | PF_RW, at);
    Mapped(Mapped(s, cur, 0, f, PF_PRES | PF_RW, at), cur, 0, 0, 0, at)
  }

  /** One page of `clone_page_dir`: map the new frame at NULL in the directory `win`, copy, unmap, map it in the new
      directory. */
  function CopyPage(w: World, win: nat, cur: nat, child: nat, p: int, f: nat, at: nat): World
    requires Shaped(w.space) && win in w.space.dirs && cur in w.space.dirs && child in w.space.dirs
    requires KSTACK_PAGE <= p < PAGES && at != 0 && FrameOf(w.space, cur, p) in w.mem
  {
    var s := w.space;
    MapShaped(s, win, 0, f, PF_PRES | PF_RW, at);
    MapShaped(Mapped(s, win, 0, f, PF_PRES | PF_RW, at), win, 0, 0, 0, at);
    World(Mapped(Window(s, win, f, at), child, p, f, PageFlags(s, cur, p), at),
          w.used + {f}, w.mem[f := w.mem[FrameOf(s, cur, p)]])
  }
}
