/** The access rights that `page_map` leaves in the page directory and in the page table. */
module PagingRights {
  import opened PagingSpec
  import opened PagingClone
  import opened PagingHeap
  import opened PagingKernel
  import opened PagingBreak

  /** Bits 0 to 8 of a flag word.  A directory entry has a zero where a table entry has `dirty`. */
  datatype Rights = Rights(present: bool, writable: bool, user: bool, writeThrough: bool, noCache: bool, accessed: bool,
                           dirty: bool, size: bool, global: bool)

  function RightsOf(f: bv32): Rights {
    Rights(f & 1 != 0, f & 2 != 0, f & 4 != 0, f & 8 != 0, f & 16 != 0, f & 32 != 0, f & 64 != 0, f & 128 != 0, f & 256 != 0)
  }

  /** What a page mapped with these flags gives the directory entry of a table made for it. */
  function Made(flags: Rights): Rights { flags.(present := true, dirty := false, size := false) }

  /** What it does to the directory entry of a table that is there. */
  function Widened(pde: Rights, writable: bool): Rights { if writable then pde.(writable := true) else pde }

  /** The rights in directory entry i after such a page is mapped through it. */
  function RightsGiven(dir: Dir, i: int, flags: bv32): Rights
    requires |dir.tables| == |dir.pdes| == 1024 && 0 <= i < 1024
  {
    if dir.tables[i] == 0 then Made(RightsOf(flags)) else Widened(RightsOf(dir.pdes[i]), RightsOf(flags).writable)
  }

  lemma MadeBits(flags: bv32, pde: bv32)
    ensures RightsOf(((flags & PDE_FLAGS) | PF_PRES) | (flags & PF_RW)) == Made(RightsOf(flags))
    ensures RightsOf(pde | (flags & PF_RW)) == Widened(RightsOf(pde), RightsOf(flags).writable)
    ensures RightsOf(flags & ENTRY_FLAGS) == RightsOf(flags).(size := false)
  {
  }

  /** What one call does to the directory entry that covers its page, and to the page's own entry. */
  lemma MapRights(s: Space, d: nat, p: int, frame: nat, flags: bv32, at: nat)
    requires Shaped(s) && d in s.dirs && 0 <= p < PAGES && at != 0
    ensures var u, i := Mapped(s, d, p, frame, flags, at), p / 1024;
            && ShapeOk(s, d) && ShapeOk(u, d) && u.dirs[d].tables[i] != 0
            && RightsOf(u.dirs[d].pdes[i]) == RightsGiven(s.dirs[d], i, flags)
            && Lookup(u, d, p).frame == frame && RightsOf(Lookup(u, d, p).flags) == RightsOf(flags).(size := false)
  {
    MapShaped(s, d, p, frame, flags, at);
    assert ShapeOk(s, d) && ShapeOk(Mapped(s, d, p, frame, flags, at), d);
    MadeBits(flags, s.dirs[d].pdes[p / 1024]);
  }

  lemma Halves(word: bv32, pde: bv32, low: bv32)
    requires low & ENTRY_FLAGS == low && word == (pde << 16) | low
    ensures RightsOf(word & 0xFFFF) == RightsOf(low) && RightsOf(word >> 16) == RightsOf(pde)
  {
  }

  lemma LowBits(s: Space, d: nat, p: int, low: bv32)
    requires Valid(s) && d in s.dirs && 0 <= p < PAGES && ShapeOk(s, d) && low == Lookup(s, d, p).flags
    ensures low & ENTRY_FLAGS == low
  {
    assert (0 as bv32) & ENTRY_FLAGS == 0;
  }

  lemma TwoHalves(s: Space, d: nat, p: int, word: bv32, pde: bv32, low: bv32)
    requires Valid(s) && d in s.dirs && 0 <= p < PAGES && ShapeOk(s, d)
    requires word == PageFlags(s, d, p) && pde == s.dirs[d].pdes[p / 1024] && low == Lookup(s, d, p).flags
    ensures word == (pde << 16) | low
  {
    HighBit(pde);
    NoLowBits(pde << 16);
    assert s.dirs[d].tables[p / 1024] == 0 ==> low == 0;
    assert s.dirs[d].tables[p / 1024] != 0 ==> pde & PF_PRES != 0;
  }

  lemma NoLowBits(up: bv32)
    ensures up | 0 == up
  {
  }

  /** `page_flags` reports the rights of the directory entry in its upper half and those of the page in its lower. */
  lemma FlagsReport(s: Space, d: nat, p: int, word: bv32, pde: bv32, low: bv32)
    requires Valid(s) && d in s.dirs && 0 <= p < PAGES && ShapeOk(s, d)
    requires word == PageFlags(s, d, p) && pde == s.dirs[d].pdes[p / 1024] && low == Lookup(s, d, p).flags
    ensures RightsOf(word & 0xFFFF) == RightsOf(low) && RightsOf(word >> 16) == RightsOf(pde)
  {
    LowBits(s, d, p, low);
    TwoHalves(s, d, p, word, pde, low);
    Halves(word, pde, low);
  }

  /** The first user page of a program: present, writable and open to user mode, and so is the table made for it. */
  lemma FirstUserPage(s: Space, d: nat, frame: nat, at: nat)
    requires Valid(s) && d in s.dirs && at != 0 && at !in s.tabs && ShapeOk(s, d) && s.dirs[d].tables[0x40] == 0
    ensures var u := Mapped(s, d, 0x1_0000, frame, 7, at);
            ShapeOk(u, d) && u.dirs[d].pdes[0x40] == 7 && PageFlags(u, d, 0x1_0000) == 0x0007_0007
  {
    MapShaped(s, d, 0x1_0000, frame, 7, at);
    assert ShapeOk(Mapped(s, d, 0x1_0000, frame, 7, at), d);
    assert ((7 & PDE_FLAGS) | PF_PRES) | (7 & PF_RW) == 7 && (7 as bv32) & ENTRY_FLAGS == 7;
  }

  // ---------------------------------------------------------------- any sequence of page_map calls

  /** What a call asks for: the directory entry that covers its page, and the rights. */
  datatype Ask = Ask(index: int, rights: Rights)

  function AskOf(c: MapCall): Ask { Ask(c.page / 1024, RightsOf(c.flags)) }

  function Asks(cs: seq<MapCall>): (r: seq<Ask>)
    ensures |r| == |cs| && forall k :: 0 <= k < |cs| ==> r[k] == AskOf(cs[k])
  {
    seq(|cs|, k requires 0 <= k < |cs| => AskOf(cs[k]))
  }

  /** Some call maps a writable page of the 4 MiB that directory entry i covers. */
  predicate SomeWritable(qs: seq<Ask>, i: int) { exists k :: 0 <= k < |qs| && qs[k].index == i && qs[k].rights.writable }

  lemma FirstOrRest(qs: seq<Ask>, i: int)
    requires qs != []
    ensures SomeWritable(qs, i) <==> (qs[0].index == i && qs[0].rights.writable) || SomeWritable(qs[1..], i)
  {
    assert qs == [qs[0]] + qs[1..];
  }

  /** The rights in directory entry i after a call; `made` says whether there was a table. */
  function After(made: bool, r: Rights, q: Ask, i: int): Rights {
    if q.index != i then r else Widened(if made then r else Made(q.rights), q.rights.writable)
  }

  function AfterAll(made: bool, r: Rights, qs: seq<Ask>, i: int): Rights
    decreases |qs|
  {
    if qs == [] then r else AfterAll(made || qs[0].index == i, After(made, r, qs[0], i), qs[1..], i)
  }

  /** What the first call of a sequence does at index i; the rest goes on from there. */
  lemma FirstCall(s: Space, d: nat, cs: seq<MapCall>, i: int)
    requires Valid(s) && d in s.dirs && cs != [] && LegalMaps(s, d, cs) && 0 <= i < 1024
    ensures var c, u := cs[0], Mapped(s, d, cs[0].page, cs[0].frame, cs[0].flags, cs[0].at);
            && Valid(u) && ShapeOk(s, d) && ShapeOk(u, d) && LegalMaps(u, d, cs[1..]) && AllMapped(s, d, cs) == AllMapped(u, d, cs[1..])
            && (u.dirs[d].tables[i] != 0 <==> s.dirs[d].tables[i] != 0 || AskOf(c).index == i)
            && RightsOf(u.dirs[d].pdes[i]) == After(s.dirs[d].tables[i] != 0, RightsOf(s.dirs[d].pdes[i]), AskOf(c), i)
  {
    var c := cs[0];
    MapValid(s, d, c);
    MapRights(s, d, c.page, c.frame, c.flags, c.at);
  }

  /** No other part of the space has a say in it. */
  lemma {:induction false} OneEntry(s: Space, d: nat, cs: seq<MapCall>, i: int)
    requires Valid(s) && d in s.dirs && ShapeOk(s, d) && LegalMaps(s, d, cs) && 0 <= i < 1024
    ensures ShapeOk(AllMapped(s, d, cs), d)
    ensures RightsOf(AllMapped(s, d, cs).dirs[d].pdes[i]) == AfterAll(s.dirs[d].tables[i] != 0, RightsOf(s.dirs[d].pdes[i]), Asks(cs), i)
    decreases |cs|
  {
    if cs != [] {
      var c := cs[0];
      FirstCall(s, d, cs, i);
      OneEntry(Mapped(s, d, c.page, c.frame, c.flags, c.at), d, cs[1..], i);
      assert Asks(cs)[1..] == Asks(cs[1..]);
    }
  }

  /** A directory entry with a table becomes writable with the first writable page mapped through it, and none of its other
      rights ever changes. */
  lemma {:induction false} EntryKept(made: bool, r: Rights, qs: seq<Ask>, i: int)
    requires made
    ensures AfterAll(made, r, qs, i) == Widened(r, SomeWritable(qs, i))
    decreases |qs|
  {
    if qs != [] {
      EntryKept(made, After(made, r, qs[0], i), qs[1..], i);
      FirstOrRest(qs, i);
    }
  }

  /** One without gets, with its table, the rights of call f, the first to map a page there; it is writable exactly when some
      call maps a writable page there, and its other rights stay those of call f. */
  lemma {:induction false} EntryMade(made: bool, r: Rights, qs: seq<Ask>, i: int, f: nat)
    requires !made && f < |qs| && qs[f].index == i && forall k :: 0 <= k < f ==> qs[k].index != i
    ensures AfterAll(made, r, qs, i) == Widened(qs[f].rights.(present := true, dirty := false, size := false), SomeWritable(qs, i))
    decreases |qs|
  {
    var next := After(made, r, qs[0], i);
    FirstOrRest(qs, i);
    if f == 0 {
      EntryKept(true, next, qs[1..], i);
    } else {
      EntryMade(made, next, qs[1..], i, f - 1);
    }
  }

  /** After any sequence of calls, f the first that maps a page of the 4 MiB in question: what the directory entry says if
      there was a table before, and what if there was none. */
  lemma RightsAfter(s: Space, d: nat, cs: seq<MapCall>, i: int, f: nat)
    requires Valid(s) && d in s.dirs && ShapeOk(s, d) && LegalMaps(s, d, cs) && 0 <= i < 1024
    requires f < |cs| && cs[f].page / 1024 == i && forall k :: 0 <= k < f ==> cs[k].page / 1024 != i
    ensures ShapeOk(AllMapped(s, d, cs), d)
    ensures var before, after := RightsOf(s.dirs[d].pdes[i]), RightsOf(AllMapped(s, d, cs).dirs[d].pdes[i]);
            after == if s.dirs[d].tables[i] != 0 then Widened(before, SomeWritable(Asks(cs), i))
                     else Widened(RightsOf(cs[f].flags).(present := true, dirty := false, size := false), SomeWritable(Asks(cs), i))
  {
    OneEntry(s, d, cs, i);
    var made, r := s.dirs[d].tables[i] != 0, RightsOf(s.dirs[d].pdes[i]);
    if made {
      EntryKept(made, r, Asks(cs), i);
    } else {
      EntryMade(made, r, Asks(cs), i, f);
    }
  }

  // ---------------------------------------------------------------- pages of the program and pages of the kernel

  /** A page added to the user heap is present, writable, open to user mode, and 4096 zeros. */
  lemma UserPage(w: World, d: nat, p: int, f: nat, u: World)
    requires Valid(w.space) && d in w.space.dirs && u in Added(w, d, p, f) && 0 <= p < PAGES
    ensures ShapeOk(u.space, d) && Lookup(u.space, d, p) == Entry(7, f)
    ensures f in u.mem && |u.mem[f]| == 4096 && forall k :: 0 <= k < 4096 ==> u.mem[f][k] == 0
  {
    assert SetAt(w.space, u.space, d, p, Entry(USER_FLAGS, f), d, p);
    assert USER_FLAGS == 7;
  }

  /** A page added to the kernel heap is present and writable, closed to user mode, and 4096 zeros. */
  lemma KernelPage(w0: World, k: nat, b: int, fs: seq<nat>, w: World, i: nat)
    requires w in Risen(w0, k, b, fs) && i < |fs|
    ensures ShapeOk(w.space, k) && Lookup(w.space, k, b + i) == Entry(3, fs[i])
    ensures fs[i] in w.mem && |w.mem[fs[i]]| == 4096 && forall j :: 0 <= j < 4096 ==> w.mem[fs[i]][j] == 0
  {
    assert RisenAt(w0, w, b, fs, k, b + i);
    assert fs[i] in fs && KERNEL_FLAGS == 3;
  }

  /** So are the pages that the kernel starts with: those mapped to themselves and those of its stack. */
  lemma FirstPages(w: World, k: nat, tables: seq<nat>, n: int, q: int)
    requires StackMapped(w, k, tables, n, 0x1_0000)
    ensures ShapeOk(w.space, k)
    ensures 0 < q < n && q < 0xFC00 ==> Lookup(w.space, k, q) == Entry(3, q)
    ensures 0xFC00 <= q < 0x1_0000 ==> Lookup(w.space, k, q).flags == 3 && Lookup(w.space, k, q).frame >= n
    ensures q == 0 || (0 < n <= q < 0xFC00) || 0x1_0000 <= q < 0x10_0000 ==> Lookup(w.space, k, q).flags & 1 == 0
  {
    assert KERNEL_FLAGS == 3 && ShapeOk(w.space, k);
    if 0xFC00 <= q < 0x1_0000 {
      assert FrameOf(w.space, k, q) >= n;
    } else if 0x1_0000 <= q < 0x10_0000 {
      assert !Has(w.space, k, q);
    }
  }
}
