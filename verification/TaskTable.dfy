/** kernel/src/mm/task.c and kernel/src/syscall/sys_tasking.c: the table, the lists threaded through
    `wait_queue`, and the system calls.  Pointers to tasks are pids here (a task sits at `tasks[pid]` as long as
    anything points to it) and 0 is NULL. */
module TaskTable {
  import opened Layout
  import opened Sets
  import opened TaskFairness
  import opened TaskSpec

  /** `struct task_t`.  `waitQueue` is the head of a live task's list of dead children, and the link to the next
      one inside such a list.  `inWait` stands for a saved context inside `sys_wait`. */
  datatype Task = Task(ppid: nat, state: State, exitStatus: int, children: nat, waitQueue: nat, inWait: bool)

  type Tasks = map<nat, Task>

  ghost function NodeOrNull(q: seq<nat>, i: nat): nat { if i < |q| then q[i] else 0 }

  /** The plain fields agree. */
  ghost predicate SameFields(m: Tasks, t: Table) {
    && m.Keys == t.Keys
    && forall p {:trigger m[p]} :: p in m ==>
         && m[p].ppid == t[p].ppid && m[p].state == t[p].state && m[p].exitStatus == t[p].status
         && m[p].children == t[p].children && m[p].inWait == t[p].inWait
  }

  /** Following `wait_queue` from p visits exactly q. */
  ghost predicate Linked(m: Tasks, p: nat, q: seq<nat>) {
    && p in m && m[p].waitQueue == NodeOrNull(q, 0)
    && forall i {:trigger q[i]} :: 0 <= i < |q| ==> q[i] in m && m[q[i]].waitQueue == NodeOrNull(q, i + 1)
  }

  ghost predicate Links(m: Tasks, t: Table) {
    forall p {:trigger Linked(m, p, t[p].queue)} :: Live(t, p) ==> Linked(m, p, t[p].queue)
  }

  ghost predicate Represents(m: Tasks, t: Table) { SameFields(m, t) && Links(m, t) }

  /** Whether r is the first ready task after cur. */
  lemma NextIs(t: Table, cur: nat, r: nat)
    requires 1 <= cur < MAX_TASKS && 1 <= r < MAX_TASKS && IsReady(t, r)
    requires forall p :: 1 <= p < MAX_TASKS && Distance(cur, p) < Distance(cur, r) ==> !IsReady(t, p)
    ensures NextTask(t, cur) == r
  {
    NextIsNearest(t, cur, r);
  }

  /** Fewer than n pids lie between 1 and n - 1. */
  lemma FewPids(pids: set<nat>, n: nat)
    requires n > 0 && forall p :: p in pids ==> 1 <= p < n
    ensures |pids| < n
  {
    var all := Below(n);
    SubsetCard(pids, all - {0});
    assert 0 in all && |all - {0}| == n - 1;
  }

  /** Counters stay far below their 32 bits. */
  lemma CountBound(t: Table, adopted: nat, p: nat)
    requires Parented(t) && Counted(t, adopted) && Live(t, p)
    ensures t[p].children < MAX_TASKS
  {
    FewPids(Children(t, p), MAX_TASKS);
  }

  /** The writes of `task_fork_inner`. */
  function Forking(m: Tasks, c: nat, n: nat): Tasks
    requires c in m
  {
    m[n := Task(c, Ready, 0, 0, 0, false)][c := m[c].(children := m[c].children + 1)]
  }

  lemma ForkRepresents(m: Tasks, m': Tasks, t: Table, c: nat, n: nat, clock: nat)
    requires Represents(m, t) && Parented(t) && HoldsDead(t) && Live(t, c) && n !in t && n != 0 && c in m
    requires m' == Forking(m, c, n)
    ensures Represents(m', Forked(t, c, n, clock))
  {
    var u := Forked(t, c, n, clock);
    ForkFields(m, m', t, c, n, clock);
    forall p: nat | Live(u, p)
      ensures Linked(m', p, u[p].queue)
    {
      if p != n {
        assert Linked(m, p, t[p].queue);
        ForkLinks(m, m', c, n, p, t[p].queue);
      }
    }
  }

  lemma ForkFields(m: Tasks, m': Tasks, t: Table, c: nat, n: nat, clock: nat)
    requires SameFields(m, t) && c in t && n !in t && c in m
    requires m' == Forking(m, c, n)
    ensures SameFields(m', Forked(t, c, n, clock))
  {
  }

  lemma ForkLinks(m: Tasks, m': Tasks, c: nat, n: nat, p: nat, q: seq<nat>)
    requires Linked(m, p, q) && n !in m && c in m && m'.Keys == m.Keys + {n}
    requires forall x {:trigger m'[x]} :: x in m ==> m'[x].waitQueue == m[x].waitQueue
    ensures Linked(m', p, q)
  {
  }

  /** `sys_fork` as a step. */
  lemma ForkStep(s: Sys)
    requires Inv(s) && Enabled(s, Fork)
    ensures Inv(Step(s, Fork)) && Parented(s.table) && HoldsDead(s.table) && Live(s.table, s.cur)
    ensures s.table[s.cur].children < MAX_TASKS && FreePid(s.table, 1) < MAX_TASKS
    ensures Step(s, Fork).table == Forked(s.table, s.cur, FreePid(s.table, 1), s.clock) && Step(s, Fork).cur == s.cur
  {
    StepInv(s, Fork);
    CountBound(s.table, s.adopted, s.cur);
  }

  /** What `task_destroy` leaves of the table. */
  function Destroyed(m: Tasks, child: nat): Tasks
    requires child in m && m[child].ppid in m && m[child].ppid != child
  {
    var par := m[child].ppid;
    m[par := m[par].(children := (m[par].children - 1) % WORD)] - {child}
  }

  datatype WaitResult = NoChild | Collected(pid: nat, status: int) | Asleep

  /** The writes of `sys_wait` when it collects. */
  function Collecting(m: Tasks, c: nat, z: nat): Tasks
    requires c in m && z in m && z != c && m[z].ppid == c
  {
    var m1 := m[c := m[c].(waitQueue := m[z].waitQueue)];
    var m2 := Destroyed(m1, z);
    m2[c := m2[c].(inWait := false)]
  }

  lemma ReapSetup(m: Tasks, t: Table, c: nat)
    requires Represents(m, t) && CanReap(t, c)
    ensures var z := t[c].queue[0]; z in m && z != c && m[z].ppid == c && m[c].waitQueue == z && z != 0
  {
    ReapHead(t, c);
    assert Linked(m, c, t[c].queue);
  }

  lemma ReapFields(m: Tasks, t: Table, c: nat, z: nat)
    requires SameFields(m, t) && c in t && t[c].queue != [] && z == t[c].queue[0] && z in t && z != c && t[z].ppid == c
    requires 0 < t[c].children < WORD
    ensures SameFields(Collecting(m, c, z), Reaped(t, c))
  {
  }

  /** What the writes leave of a link: the collector's moves on, and the task that went is in no queue that is left. */
  lemma ReapLink(m: Tasks, c: nat, z: nat, x: nat)
    requires c in m && z in m && z != c && m[z].ppid == c && x in m && x != z
    ensures x in Collecting(m, c, z)
    ensures Collecting(m, c, z)[x].waitQueue == if x == c then m[z].waitQueue else m[x].waitQueue
  {
  }

  /** The queue that is left, place by place. */
  lemma ReapPlace(t: Table, c: nat, p: nat, i: nat)
    requires CanReap(t, c) && t[c].queue[0] in t && Live(Reaped(t, c), p) && i < |Reaped(t, c)[p].queue|
    ensures var d := if p == c then 1 else 0;
            && p in t && i + d < |t[p].queue| && Reaped(t, c)[p].queue[i] == t[p].queue[i + d] != t[c].queue[0]
            && t[p].queue[i + d] in t && t[p].queue[i + d] != c && |Reaped(t, c)[p].queue| == |t[p].queue| - d
  {
    ReapHead(t, c);
    var d := if p == c then 1 else 0;
    assert IsDeadChild(t, p, t[p].queue[i + d]);
  }

  lemma ReapLinks(m: Tasks, t: Table, c: nat, z: nat, p: nat)
    requires Represents(m, t) && CanReap(t, c) && z == t[c].queue[0] && z in m && z != c && m[z].ppid == c
    requires z in t && Live(Reaped(t, c), p)
    ensures Linked(Collecting(m, c, z), p, Reaped(t, c)[p].queue)
  {
    var q, q', m' := t[p].queue, Reaped(t, c)[p].queue, Collecting(m, c, z);
    assert Linked(m, c, t[c].queue) && Live(t, p) && Linked(m, p, q);
    ReapLink(m, c, z, p);
    forall i | 0 <= i < |q'|
      ensures q'[i] in m' && m'[q'[i]].waitQueue == NodeOrNull(q', i + 1)
    {
      ReapPlace(t, c, p, i);
      if i + 1 < |q'| {
        ReapPlace(t, c, p, i + 1);
      }
      ReapLink(m, c, z, q'[i]);
    }
  }

  lemma ReapRepresents(m: Tasks, t: Table, c: nat, z: nat)
    requires Represents(m, t) && CanReap(t, c) && t[c].children < WORD
    requires z == t[c].queue[0] && z in m && z != c && m[z].ppid == c
    ensures z in t && Represents(Collecting(m, c, z), Reaped(t, c))
  {
    ReapHead(t, c);
    ReapFields(m, t, c, z);
    forall p: nat | Live(Reaped(t, c), p)
      ensures Linked(Collecting(m, c, z), p, Reaped(t, c)[p].queue)
    {
      ReapLinks(m, t, c, z, p);
    }
  }

  lemma BlockRepresents(m: Tasks, t: Table, c: nat)
    requires Represents(m, t) && Live(t, c) && HoldsDead(t)
    ensures Represents(m[c := m[c].(state := BlockWait, inWait := true)], Blocked(t, c))
  {
    var u, m' := Blocked(t, c), m[c := m[c].(state := BlockWait, inWait := true)];
    forall p: nat | Live(u, p)
      ensures Linked(m', p, u[p].queue)
    {
      assert Live(t, p) && Linked(m, p, t[p].queue);
    }
  }

  /** What the running task reads at the top of `sys_wait`. */
  lemma WaitSees(m: Tasks, s: Sys)
    requires Inv(s) && Represents(m, s.table)
    ensures s.cur in m && var me := s.table[s.cur];
            && m[s.cur].inWait == me.inWait && m[s.cur].children == me.children && (me.inWait ==> me.children > 0)
            && (m[s.cur].waitQueue == 0 <==> me.queue == [])
            && (me.queue != [] ==> me.queue[0] in m)
  {
    var t := s.table;
    assert Live(t, s.cur) && Linked(m, s.cur, t[s.cur].queue);
    if t[s.cur].queue != [] {
      assert IsDeadChild(t, s.cur, t[s.cur].queue[0]);
    }
  }

  lemma WaitStep(s: Sys)
    requires Inv(s)
    ensures var me := s.table[s.cur];
            && (me.children == 0 ==> Step(s, Wait) == s)
            && (me.children > 0 && me.queue != [] ==>
                  CanReap(s.table, s.cur) && me.queue[0] in s.table && Step(s, Wait) == s.(table := Reaped(s.table, s.cur)))
            && (me.children > 0 && me.queue == [] ==> Step(s, Wait) == Switched(s, Blocked(s.table, s.cur)))
  {
    if s.table[s.cur].children > 0 && s.table[s.cur].queue != [] {
      ReapHead(s.table, s.cur);
    }
  }

  /** The table without the first i members of q, which were k's children. */
  function Without(m: Tasks, k: nat, q: seq<nat>, i: nat): Tasks
    requires k in m && i <= |q| && m[k].children >= i
  {
    map p | p in m && p !in q[..i] :: if p == k then m[k].(children := m[k].children - i) else m[p]
  }

  lemma WithoutStep(m: Tasks, k: nat, q: seq<nat>, i: nat)
    requires k in m && k !in q && i < |q| && |q| <= m[k].children < WORD && Distinct(q)
    requires q[i] in m && m[q[i]].ppid == k
    ensures var w := Without(m, k, q, i);
            q[i] in w && k in w && w[q[i]].ppid == k && q[i] != k && Destroyed(w, q[i]) == Without(m, k, q, i + 1)
  {
    assert q[..i + 1] == q[..i] + [q[i]];
    assert q[i] in q && q[i] !in q[..i];
  }

  function Reparented(m: Tasks, k: nat, n: nat): Tasks {
    map p | p in m :: if 2 <= p < n && m[p].ppid == k then m[p].(ppid := INIT) else m[p]
  }

  /** k appended to its parent's list q: the last link, the wake-up and k's own fields. */
  function Joined(m: Tasks, k: nat, q: seq<nat>): Tasks
    requires k in m && m[k].ppid in m
  {
    var par := m[k].ppid;
    var last := if q == [] then par else q[|q| - 1];
    map p | p in m ::
      if p == k then m[k].(waitQueue := 0, state := Exiting)
      else m[p].(waitQueue := if p == last then k else m[p].waitQueue,
                 state := if p == par && m[p].state == BlockWait then Ready else m[p].state)
  }

  /** The table when k is about to join its parent's list. */
  function Orphaned(m: Tasks, k: nat, status: int, q: seq<nat>): Tasks
    requires k in m && m[k].children >= |q|
  {
    Reparented(Without(m[k := m[k].(exitStatus := status)], k, q, |q|), k, MAX_TASKS)
  }

  ghost predicate KillContext(m: Tasks, t: Table, k: nat, clock: nat) {
    Represents(m, t) && CanKill(t, k) && Aged(t, clock) && t[k].children >= |t[k].queue|
  }

  lemma SeqCard(q: seq<nat>, s: set<nat>)
    requires Distinct(q) && forall i :: 0 <= i < |q| ==> q[i] in s
    ensures |q| <= |s|
  {
    if q != [] {
      var n := |q| - 1;
      assert forall i :: 0 <= i < n ==> q[..n][i] == q[i] && q[i] != q[n];
      SeqCard(q[..n], s - {q[n]});
    }
  }

  /** What `DestroyZombies` needs. */
  lemma KillSetup(m: Tasks, t: Table, k: nat, status: int, clock: nat, adopted: nat)
    requires Represents(m, t) && CanKill(t, k) && Aged(t, clock) && Counted(t, adopted)
    ensures KillContext(m, t, k, clock) && t[k].children < WORD
    ensures var m1, q := m[k := m[k].(exitStatus := status)], t[k].queue;
            && Linked(m1, k, q) && Distinct(q) && 0 !in q && k !in q
            && forall z :: z in q ==> z in m1 && m1[z].ppid == k
  {
    KillFacts(t, k, clock);
    CountBound(t, adopted, k);
    var q := t[k].queue;
    assert Linked(m, k, q);
    forall i | 0 <= i < |q|
      ensures q[i] in Children(t, k) && q[i] != 0
    {
      assert IsDeadChild(t, k, q[i]);
    }
    SeqCard(q, Children(t, k));
  }

  lemma KillOrphaned(m: Tasks, t: Table, k: nat, status: int, clock: nat, p: nat)
    requires KillContext(m, t, k, clock)
    ensures var o := Orphaned(m, k, status, t[k].queue);
            && (p in o <==> p in t && p !in t[k].queue)
            && (p in o && p != k ==> o[p] == m[p].(ppid := if m[p].ppid == k then INIT else m[p].ppid))
            && (p == k ==> o[k] == m[k].(exitStatus := status, children := m[k].children - |t[k].queue|))
  {
    KillFacts(t, k, clock);
    assert t[k].queue[..|t[k].queue|] == t[k].queue;
    assert m[INIT].ppid == 0;
  }

  /** What `JoinQueue` needs, after the zombies went and the orphans moved. */
  lemma KillMiddle(m: Tasks, t: Table, k: nat, status: int, clock: nat)
    requires KillContext(m, t, k, clock)
    ensures t[k].ppid in t
    ensures var w := Without(m[k := m[k].(exitStatus := status)], k, t[k].queue, |t[k].queue|);
            && (forall p :: p in w ==> 1 <= p < MAX_TASKS) && INIT in w && w[INIT].ppid != k
    ensures var o, par := Orphaned(m, k, status, t[k].queue), t[k].ppid;
            var q := t[par].queue;
            && k in o && o[k].ppid == par && par in o && Linked(o, par, q) && 0 !in q && k !in q
            && Distinct(q) && par != k && par !in q
  {
    KillFacts(t, k, clock);
    var o, par := Orphaned(m, k, status, t[k].queue), t[k].ppid;
    var q := t[par].queue;
    assert t[k].queue[..|t[k].queue|] == t[k].queue;
    assert m[INIT].ppid == 0;
    KillOrphaned(m, t, k, status, clock, k);
    KillOrphaned(m, t, k, status, clock, par);
    assert Linked(m, par, q);
    forall i | 0 <= i < |q|
      ensures q[i] in o && o[q[i]].waitQueue == m[q[i]].waitQueue && q[i] != 0 && q[i] != k && q[i] != par
    {
      assert IsDeadChild(t, par, q[i]);
      KillOrphaned(m, t, k, status, clock, q[i]);
    }
  }

  /** All the writes of `task_kill`. */
  ghost function KillWrites(m: Tasks, t: Table, k: nat, status: int, clock: nat): Tasks
    requires KillContext(m, t, k, clock)
  {
    KillMiddle(m, t, k, status, clock);
    Joined(Orphaned(m, k, status, t[k].queue), k, t[t[k].ppid].queue)
  }

  lemma KillFieldsAt(m: Tasks, t: Table, k: nat, status: int, clock: nat, p: nat)
    requires KillContext(m, t, k, clock)
    ensures t[k].ppid in t
    ensures var w, u := KillWrites(m, t, k, status, clock), Killed(t, k, status);
            && (p in w <==> p in u)
            && (p in w ==> && w[p].ppid == u[p].ppid && w[p].state == u[p].state && w[p].exitStatus == u[p].status
                           && w[p].children == u[p].children && w[p].inWait == u[p].inWait)
  {
    KillFacts(t, k, clock);
    KillMiddle(m, t, k, status, clock);
    KillOrphaned(m, t, k, status, clock, p);
  }

  lemma KillLinksAt(m: Tasks, t: Table, k: nat, status: int, clock: nat, p: nat)
    requires KillContext(m, t, k, clock) && Live(t, p) && p != k
    ensures t[k].ppid in t && p in Killed(t, k, status)
    ensures Linked(KillWrites(m, t, k, status, clock), p, Killed(t, k, status)[p].queue)
  {
    KillFacts(t, k, clock);
    KillMiddle(m, t, k, status, clock);
    KillOrphaned(m, t, k, status, clock, p);
    var par, q, o, w := t[k].ppid, t[p].queue, Orphaned(m, k, status, t[k].queue), KillWrites(m, t, k, status, clock);
    var pq := t[par].queue;
    var last := if pq == [] then par else pq[|pq| - 1];
    assert Linked(m, p, q);
    forall i | 0 <= i < |q|
      ensures q[i] in w && q[i] != k && w[q[i]].waitQueue == if q[i] == last then k else m[q[i]].waitQueue
    {
      assert IsDeadChild(t, p, q[i]);
      KillOrphaned(m, t, k, status, clock, q[i]);
    }
    var q' := Killed(t, k, status)[p].queue;
    if p == par {
      assert q' == q + [k];
      LastLink(m, w, par, q, k);
    } else {
      assert q' == q;
      forall i | 0 <= i < |q|
        ensures q[i] != last
      {
        assert IsDeadChild(t, p, q[i]);
        assert pq != [] ==> IsDeadChild(t, par, pq[|pq| - 1]);
      }
      assert p != last by {
        assert pq != [] ==> IsDeadChild(t, par, pq[|pq| - 1]);
      }
    }
  }

  /** Appending k to the list of par. */
  lemma LastLink(m: Tasks, w: Tasks, par: nat, q: seq<nat>, k: nat)
    requires Linked(m, par, q) && Distinct(q) && par !in q && k !in q && par != k && k != 0
    requires k in w && w[k].waitQueue == 0 && par in w
    requires forall i :: 0 <= i < |q| ==> q[i] in w && w[q[i]].waitQueue == if i == |q| - 1 then k else m[q[i]].waitQueue
    requires w[par].waitQueue == if q == [] then k else m[par].waitQueue
    ensures Linked(w, par, q + [k])
  {
    var q' := q + [k];
    forall i | 0 <= i < |q'|
      ensures q'[i] in w && w[q'[i]].waitQueue == NodeOrNull(q', i + 1)
    {
      if i < |q| {
        assert q'[i] == q[i];
      }
    }
  }

  lemma KillRepresents(m: Tasks, t: Table, k: nat, status: int, clock: nat)
    requires KillContext(m, t, k, clock)
    ensures t[k].ppid in t && Represents(KillWrites(m, t, k, status, clock), Killed(t, k, status))
  {
    KillFacts(t, k, clock);
    var w, u := KillWrites(m, t, k, status, clock), Killed(t, k, status);
    forall p: nat
      ensures p in w <==> p in u
      ensures p in w ==> && w[p].ppid == u[p].ppid && w[p].state == u[p].state && w[p].exitStatus == u[p].status
                         && w[p].children == u[p].children && w[p].inWait == u[p].inWait
    {
      KillFieldsAt(m, t, k, status, clock, p);
    }
    forall p: nat | Live(u, p)
      ensures Linked(w, p, u[p].queue)
    {
      assert Live(t, p) && p != k;
      KillLinksAt(m, t, k, status, clock, p);
    }
  }

  lemma ReapStep(s: Sys) returns (s': Sys)
    requires Inv(s) && CanReap(s.table, s.cur)
    ensures s.table[s.cur].queue[0] in s.table && s' == s.(table := Reaped(s.table, s.cur)) && Inv(s')
  {
    ReapInv(s.table, s.cur, s.clock, s.adopted);
    ReapHead(s.table, s.cur);
    s' := s.(table := Reaped(s.table, s.cur));
  }

  /** The state between `task_kill` and `sched_switch` in `sys_exit`. */
  lemma ExitStep(s: Sys, status: int) returns (s1: Sys)
    requires Inv(s) && Enabled(s, Exit(status))
    ensures CanKill(s.table, s.cur) && s.table[s.cur].ppid in s.table && 1 <= s.cur < MAX_TASKS
    ensures s1.table == Killed(s.table, s.cur, status) && s1.cur == s.cur
    ensures TableInv(s1.table, s1.clock, s1.adopted) && Step(s, Exit(status)) == Switched(s1, s1.table)
  {
    KillInv(s.table, s.cur, status, s.clock, s.adopted);
    s1 := s.(table := Killed(s.table, s.cur, status), adopted := s.adopted + |Orphans(s.table, s.cur)|);
  }

  lemma BootRepresents()
    ensures Represents(map[INIT := Task(0, Ready, 0, 0, 0, false)], Boot().table)
  {
    var m, t := map[INIT := Task(0, Ready, 0, 0, 0, false)], Boot().table;
    assert Linked(m, INIT, t[INIT].queue);
  }

  class Kernel {
    var tasks: Tasks
    var curTask: nat
    ghost var sys: Sys

    /** Between system calls. */
    ghost predicate Valid()
      reads this
    {
      Inv(sys) && Represents(tasks, sys.table) && curTask == sys.cur
    }

    /** `task_init`: an empty table, then init takes its first pid. */
    constructor ()
      ensures Valid() && sys == Boot()
    {
      tasks, curTask, sys := map[], 0, Sys(map[], 0, 0, 0);
      new;
      curTask := AllocEmptyTask();
      tasks := tasks[curTask := tasks[curTask].(ppid := 0)];
      sys := Boot();
      BootInv();
      BootRepresents();
    }

    /** `sched_next`; 0 stands for its panic. */
    method SchedNext() returns (r: nat)
      requires SameFields(tasks, sys.table) && 1 <= curTask < MAX_TASKS
      ensures r == NextTask(sys.table, curTask)
    {
      ghost var t := sys.table;
      for i := curTask + 1 to MAX_TASKS
        invariant forall p :: curTask < p < i ==> !IsReady(t, p)
      {
        if i in tasks && tasks[i].state == Ready {
          NextIs(t, curTask, i);
          return i;
        }
      }
      for i := 1 to curTask + 1
        invariant forall p :: 1 <= p < i || curTask < p < MAX_TASKS ==> !IsReady(t, p)
      {
        if i in tasks && tasks[i].state == Ready {
          NextIs(t, curTask, i);
          return i;
        }
      }
      return 0;
    }

    /** `sched_switch`: the panic of `sched_next` is not reached. */
    method SchedSwitch()
      requires TableInv(sys.table, sys.clock, sys.adopted) && Represents(tasks, sys.table)
      requires 1 <= curTask < MAX_TASKS && curTask == sys.cur
      modifies this`curTask, this`sys
      ensures sys == Switched(old(sys), old(sys).table) && curTask == sys.cur != 0
      ensures Inv(sys) && RunsNext(sys.table, old(curTask), curTask)
    {
      SwitchInv(sys, sys.table, sys.adopted);
      SwitchNearest(sys.table, sys.clock, sys.adopted, curTask);
      curTask := SchedNext();
      sys := Switched(sys, sys.table);
    }

    /** `alloc_empty_task`: the lowest free pid; 0 for NULL. */
    method AllocEmptyTask() returns (pid: nat)
      requires SameFields(tasks, sys.table)
      modifies this`tasks
      ensures pid == if FreePid(sys.table, 1) < MAX_TASKS then FreePid(sys.table, 1) else 0
      ensures tasks == if pid == 0 then old(tasks) else old(tasks)[pid := Task(0, Ready, 0, 0, 0, false)]
    {
      for i := 1 to MAX_TASKS
        invariant tasks == old(tasks) && FreePid(sys.table, 1) == FreePid(sys.table, i)
      {
        if i !in tasks {
          tasks := tasks[i := Task(0, Ready, 0, 0, 0, false)];
          return i;
        }
      }
      return 0;
    }

    /** `task_fork_inner`.  A full table is not checked by the code. */
    method TaskForkInner() returns (pid: nat)
      requires SameFields(tasks, sys.table) && curTask in tasks && tasks[curTask].children < WORD - 1
      requires FreePid(sys.table, 1) < MAX_TASKS
      modifies this`tasks
      ensures pid == FreePid(sys.table, 1)
      ensures tasks == Forking(old(tasks), curTask, pid)
    {
      pid := AllocEmptyTask();
      tasks := tasks[pid := tasks[pid].(ppid := curTask)];
      tasks := tasks[curTask := tasks[curTask].(children := (tasks[curTask].children + 1) % WORD)];
    }

    method SysFork() returns (pid: nat)
      requires Valid() && Enabled(sys, Fork)
      modifies this`tasks, this`sys
      ensures Valid() && sys == Step(old(sys), Fork) && pid == FreePid(old(sys).table, 1)
    {
      ForkStep(sys);
      ghost var m, s := tasks, Step(sys, Fork);
      pid := TaskForkInner();
      ForkRepresents(m, tasks, sys.table, curTask, pid, sys.clock);
      sys := s;
    }

    /** `sys_sched_yield`, and the timer tick. */
    method SysSchedYield()
      requires Valid() && Enabled(sys, Yield)
      modifies this`curTask, this`sys
      ensures Valid() && sys == Step(old(sys), Yield) && RunsNext(sys.table, old(curTask), curTask)
    {
      SchedSwitch();
    }

    /** `task_destroy`: the parent loses a child and the slot is freed. */
    method TaskDestroy(child: nat)
      requires child in tasks && tasks[child].ppid in tasks && tasks[child].ppid != child
      modifies this`tasks
      ensures tasks == Destroyed(old(tasks), child)
    {
      var par := tasks[child].ppid;
      tasks := tasks[par := tasks[par].(children := (tasks[par].children - 1) % WORD)];
      tasks := tasks - {child};
    }

    /** Lines 104-120 of `sys_wait`. */
    method Collect() returns (child: nat, status: int)
      requires curTask in tasks && tasks[curTask].waitQueue in tasks && tasks[curTask].waitQueue != curTask
      requires tasks[tasks[curTask].waitQueue].ppid == curTask
      modifies this`tasks
      ensures child == old(tasks)[curTask].waitQueue && status == old(tasks)[child].exitStatus
      ensures tasks == Collecting(old(tasks), curTask, child)
    {
      child := tasks[curTask].waitQueue;
      tasks := tasks[curTask := tasks[curTask].(waitQueue := tasks[child].waitQueue)];
      status := tasks[child].exitStatus;
      TaskDestroy(child);
      tasks := tasks[curTask := tasks[curTask].(inWait := false)];
    }

    method CollectOldest() returns (child: nat, status: int)
      requires Valid() && CanReap(sys.table, curTask)
      modifies this`tasks, this`sys
      ensures child == old(sys).table[curTask].queue[0] && child in old(tasks) && status == old(tasks)[child].exitStatus
      ensures child in old(sys).table && sys == old(sys).(table := Reaped(old(sys).table, curTask))
      ensures Valid()
    {
      ghost var m, t := tasks, sys.table;
      ReapSetup(m, t, curTask);
      CountBound(t, sys.adopted, curTask);
      child, status := Collect();
      ReapRepresents(m, t, curTask, child);
      sys := ReapStep(sys);
    }

    /** Lines 123-124 of `sys_wait`. */
    method Sleep()
      requires Valid() && sys.table[sys.cur].queue == [] && sys.table[sys.cur].children > 0
      modifies this
      ensures Valid() && sys == Switched(old(sys), Blocked(old(sys).table, old(sys).cur))
      ensures RunsNext(sys.table, old(curTask), curTask)
    {
      ghost var t := sys.table;
      BlockRepresents(tasks, t, curTask);
      BlockInv(t, curTask, sys.clock, sys.adopted);
      tasks := tasks[curTask := tasks[curTask].(state := BlockWait, inWait := true)];
      sys := sys.(table := Blocked(t, curTask));
      SchedSwitch();
    }

    /** `sys_wait`: one pass from its entry, or from `again` when the task resumes inside it. */
    method SysWait() returns (r: WaitResult)
      requires Valid()
      modifies this
      ensures Valid() && sys == Step(old(sys), Wait)
      ensures var me := old(sys).table[old(sys).cur];
              r == if me.children == 0 then NoChild
                   else if me.queue == [] then Asleep
                   else Collected(me.queue[0], old(tasks)[me.queue[0]].exitStatus)
      ensures if r == Asleep then RunsNext(sys.table, old(curTask), curTask) else curTask == old(curTask)
    {
      WaitStep(sys);
      WaitSees(tasks, sys);
      if !tasks[curTask].inWait && tasks[curTask].children == 0 {
        return NoChild;
      }
      if tasks[curTask].waitQueue != 0 {
        var child, status := CollectOldest();
        return Collected(child, status);
      }
      Sleep();
      return Asleep;
    }

    /** Lines 157-165 of `task_kill`: destroy the dead children nobody collected.  q is the list they form. */
    method DestroyZombies(k: nat, ghost q: seq<nat>)
      requires Linked(tasks, k, q) && Distinct(q) && 0 !in q && k !in q && tasks[k].children >= |q|
      requires tasks[k].children < WORD
      requires forall z :: z in q ==> z in tasks && tasks[z].ppid == k
      modifies this`tasks
      ensures tasks == Without(old(tasks), k, q, |q|)
    {
      ghost var m := tasks;
      ghost var i := 0;
      assert m == Without(m, k, q, 0);
      var child := tasks[k].waitQueue;
      while child != 0
        invariant 0 <= i <= |q| && child == NodeOrNull(q, i)
        invariant tasks == Without(m, k, q, i)
        decreases |q| - i
      {
        assert child == q[i] && child in q && child !in q[..i];
        var nextChild := tasks[child].waitQueue;
        TaskDestroy(child);
        WithoutStep(m, k, q, i);
        child, i := nextChild, i + 1;
      }
    }

    /** Lines 167-173: live children go to init. */
    method Reparent(k: nat)
      requires forall p :: p in tasks ==> 1 <= p < MAX_TASKS
      requires INIT in tasks ==> tasks[INIT].ppid != k
      modifies this`tasks
      ensures tasks == Reparented(old(tasks), k, MAX_TASKS)
    {
      assert tasks == Reparented(tasks, k, 2);
      for i := 2 to MAX_TASKS
        invariant tasks == Reparented(old(tasks), k, i)
      {
        if i in tasks && tasks[i].ppid == k {
          tasks := tasks[i := tasks[i].(ppid := INIT)];
        }
        assert tasks == Reparented(old(tasks), k, i + 1);
      }
    }

    /** Lines 175-190: join the end of the parent's list q, wake the parent, stop running. */
    method JoinQueue(k: nat, ghost q: seq<nat>)
      requires k in tasks && tasks[k].ppid in tasks && Linked(tasks, tasks[k].ppid, q) && 0 !in q && k !in q
      requires Distinct(q) && tasks[k].ppid != k && tasks[k].ppid !in q
      modifies this`tasks
      ensures tasks == Joined(old(tasks), k, q)
    {
      var parent := tasks[k].ppid;
      var queue := EndOfQueue(parent, q);
      tasks := tasks[queue := tasks[queue].(waitQueue := k)];
      tasks := tasks[k := tasks[k].(waitQueue := 0)];
      if tasks[parent].state == BlockWait {
        tasks := tasks[parent := tasks[parent].(state := Ready)];
      }
      tasks := tasks[k := tasks[k].(state := Exiting)];
    }

    /** The walk to the end of the list q of parent. */
    method EndOfQueue(parent: nat, ghost q: seq<nat>) returns (queue: nat)
      requires Linked(tasks, parent, q) && parent in tasks && 0 !in q
      ensures queue in tasks && queue == if q == [] then parent else q[|q| - 1]
    {
      queue := parent;
      ghost var j := 0;
      while tasks[queue].waitQueue != 0
        invariant j <= |q| && queue == (if j == 0 then parent else q[j - 1])
        decreases |q| - j
      {
        queue, j := tasks[queue].waitQueue, j + 1;
      }
      assert j == |q|;
    }

    /** `task_kill`. */
    method TaskKill(k: nat, status: int)
      requires TableInv(sys.table, sys.clock, sys.adopted) && CanKill(sys.table, k) && Represents(tasks, sys.table)
      modifies this`tasks
      ensures sys.table[k].ppid in sys.table && Represents(tasks, Killed(sys.table, k, status))
    {
      ghost var t, m := sys.table, tasks;
      KillSetup(m, t, k, status, sys.clock, sys.adopted);
      KillRepresents(m, t, k, status, sys.clock);
      Kill(k, status, t, sys.clock);
    }

    /** Its writes, for the table t that was. */
    method Kill(k: nat, status: int, ghost t: Table, ghost clock: nat)
      requires KillContext(tasks, t, k, clock) && t[k].children < WORD
      requires var m1, q := tasks[k := tasks[k].(exitStatus := status)], t[k].queue;
               && Linked(m1, k, q) && Distinct(q) && 0 !in q && k !in q
               && forall z :: z in q ==> z in m1 && m1[z].ppid == k
      modifies this`tasks
      ensures tasks == KillWrites(old(tasks), t, k, status, clock)
    {
      ghost var m := tasks;
      KillFacts(t, k, clock);
      KillMiddle(m, t, k, status, clock);
      tasks := tasks[k := tasks[k].(exitStatus := status)];
      DestroyZombies(k, t[k].queue);
      Reparent(k);
      JoinQueue(k, t[t[k].ppid].queue);
    }

    /** `sys_exit`, for a task other than init. */
    method SysExit(status: int)
      requires Valid() && Enabled(sys, Exit(status))
      modifies this
      ensures Valid() && sys == Step(old(sys), Exit(status)) && RunsNext(sys.table, old(curTask), curTask)
    {
      ghost var s := ExitStep(sys, status);
      KillSelf(status, s);
      SwitchAway(s);
    }

    /** The first half of `sys_exit`. */
    method KillSelf(status: int, ghost s: Sys)
      requires Valid() && CanKill(sys.table, curTask) && sys.table[curTask].ppid in sys.table
      requires s.table == Killed(sys.table, curTask, status)
      modifies this`tasks, this`sys
      ensures sys == s && Represents(tasks, sys.table)
    {
      TaskKill(curTask, status);
      sys := s;
    }

    /** The second half: the switch that does not come back. */
    method SwitchAway(ghost s: Sys)
      requires sys == s && TableInv(s.table, s.clock, s.adopted) && Represents(tasks, s.table) && 1 <= curTask < MAX_TASKS && curTask == s.cur
      modifies this`curTask, this`sys
      ensures Valid() && sys == Switched(s, s.table) && RunsNext(sys.table, old(curTask), curTask)
    {
      SchedSwitch();
    }
  }
}
