/** The process table of kernel/src/mm/task.c as a state machine whose steps are system calls and timer ticks.

    A task's `wait_queue` list appears here as the sequence of its dead children; `TaskTable` proves that the
    code, which threads those lists through the tasks themselves, takes exactly these steps.  `born` is
    history: when the task was made (pids are reused). */
module TaskSpec {

  const MAX_TASKS := 256
  const INIT := 1

  datatype State = Ready | BlockWait | Exiting

  datatype Proc = Proc(
    ppid: nat, state: State, status: int, children: nat,
    inWait: bool,                 // suspended inside sys_wait: it resumes at `again`
    queue: seq<nat>,
    born: nat)

  type Table = map<nat, Proc>

  /** `adopted` counts the orphans handed to init, whose `children` field ignores them. */
  datatype Sys = Sys(table: Table, cur: nat, clock: nat, adopted: nat)

  predicate Live(t: Table, p: nat) { p in t && t[p].state != Exiting }

  function Children(t: Table, p: nat): set<nat> { set c | c in t && t[c].ppid == p }

  ghost predicate Distinct(q: seq<nat>) { forall i, j :: 0 <= i < j < |q| ==> q[i] != q[j] }

  ghost predicate InTable(t: Table, q: seq<nat>) { forall i :: 0 <= i < |q| ==> q[i] in t }

  ghost function Statuses(t: Table, q: seq<nat>): seq<(nat, int)>
    requires InTable(t, q)
  {
    seq(|q|, i requires 0 <= i < |q| => (q[i], t[q[i]].status))
  }

  // ---------------------------------------------------------------- the invariant

  /** Parents are live tasks of the table. */
  ghost predicate Parented(t: Table) {
    && (forall p :: p in t ==> 1 <= p < MAX_TASKS)
    && Live(t, INIT) && t[INIT].ppid == 0
    && forall p {:trigger t[p].ppid} :: p in t && p != INIT ==> Live(t, t[p].ppid)
  }

  predicate IsDeadChild(t: Table, p: nat, z: nat) { z in t && t[z].state == Exiting && t[z].ppid == p }

  /** Queues hold dead children of their owner, each once; the dead own none. */
  ghost predicate HoldsDead(t: Table) {
    && (forall p, i {:trigger t[p].queue[i]} :: p in t && 0 <= i < |t[p].queue| ==> IsDeadChild(t, p, t[p].queue[i]))
    && (forall p :: p in t ==> Distinct(t[p].queue))
    && (forall p :: p in t && t[p].state == Exiting ==> t[p].queue == [])
  }

  /** Every dead child is in its parent's queue. */
  ghost predicate DeadHeld(t: Table) {
    forall z {:trigger t[z].ppid} :: z in t && t[z].state == Exiting && t[z].ppid in t ==> z in t[t[z].ppid].queue
  }

  /** Counters: exact for every live task but init, whose counter misses the adopted. */
  ghost predicate Counted(t: Table, adopted: nat) {
    && (forall p :: Live(t, p) && p != INIT ==> t[p].children == |Children(t, p)|)
    && (INIT in t ==> t[INIT].children + adopted == |Children(t, INIT)|)
  }

  /** No wake-up is lost: a blocked task has nothing to collect but a child to wait for; a task woken inside
      `sys_wait` has something to collect. */
  ghost predicate Awake(t: Table) {
    forall p :: Live(t, p) ==>
      && (t[p].state == BlockWait ==> t[p].inWait && t[p].queue == [])
      && (t[p].inWait ==> t[p].children > 0)
      && (t[p].inWait && t[p].state == Ready ==> t[p].queue != [])
  }

  /** Live children are younger than their parents. */
  ghost predicate Aged(t: Table, clock: nat) {
    && (forall p {:trigger t[p].born} :: Live(t, p) ==> t[p].born < clock)
    && forall p {:trigger t[p].ppid} :: Live(t, p) && p != INIT && t[p].ppid in t ==> t[t[p].ppid].born < t[p].born
  }

  ghost predicate TableInv(t: Table, clock: nat, adopted: nat) {
    Parented(t) && HoldsDead(t) && DeadHeld(t) && Counted(t, adopted) && Awake(t) && Aged(t, clock)
  }

  ghost predicate Inv(s: Sys) {
    TableInv(s.table, s.clock, s.adopted) && s.cur in s.table && s.table[s.cur].state == Ready
  }

  /** After `task_init`: one task. */
  function Boot(): Sys {
    Sys(map[INIT := Proc(0, Ready, 0, 0, false, [], 0)], INIT, 1, 0)
  }

  lemma BootInv()
    ensures Inv(Boot())
  {
    var t := Boot().table;
    BootCounted();
    assert Parented(t);
    assert Aged(t, 1) && Awake(t);
    BootQueues();
  }

  lemma BootCounted()
    ensures Counted(Boot().table, 0)
  {
    assert Children(Boot().table, INIT) == {};
  }

  lemma BootQueues()
    ensures HoldsDead(Boot().table) && DeadHeld(Boot().table)
  {
  }

  // ---------------------------------------------------------------- fork

  function Forked(t: Table, c: nat, n: nat, clock: nat): Table
    requires c in t
  {
    t[c := t[c].(children := t[c].children + 1)][n := Proc(c, Ready, 0, 0, false, [], clock)]
  }

  lemma ForkParented(t: Table, c: nat, n: nat, clock: nat)
    requires Parented(t) && Live(t, c) && n !in t && 1 <= n < MAX_TASKS
    ensures Parented(Forked(t, c, n, clock))
  {
  }

  lemma ForkQueued(t: Table, c: nat, n: nat, clock: nat)
    requires Parented(t) && HoldsDead(t) && Live(t, c) && n !in t && 1 <= n
    ensures HoldsDead(Forked(t, c, n, clock))
  {
    var u := Forked(t, c, n, clock);
    forall p, i | p in u && 0 <= i < |u[p].queue|
      ensures IsDeadChild(u, p, u[p].queue[i])
    {
      assert u[p].queue == t[p].queue && IsDeadChild(t, p, t[p].queue[i]);
    }
  }

  lemma ForkDeadHeld(t: Table, c: nat, n: nat, clock: nat)
    requires Parented(t) && DeadHeld(t) && Live(t, c) && n !in t && 1 <= n
    ensures DeadHeld(Forked(t, c, n, clock))
  {
  }

  lemma ForkCounted(t: Table, c: nat, n: nat, clock: nat, adopted: nat)
    requires Parented(t) && Counted(t, adopted) && Live(t, c) && n !in t && 1 <= n
    ensures Counted(Forked(t, c, n, clock), adopted)
  {
    var u := Forked(t, c, n, clock);
    assert Children(u, n) == {};
    ForkChildren(t, c, n, clock);
  }

  lemma ForkChildren(t: Table, c: nat, n: nat, clock: nat)
    requires Parented(t) && Live(t, c) && n !in t && 1 <= n
    ensures forall p {:trigger Children(Forked(t, c, n, clock), p)} :: p in t ==>
              Children(Forked(t, c, n, clock), p) == Children(t, p) + if p == c then {n} else {}
    ensures n !in Children(t, c)
  {
    var u := Forked(t, c, n, clock);
    forall p | p in t
      ensures Children(u, p) == Children(t, p) + if p == c then {n} else {}
    {
    }
  }

  lemma ForkInv(t: Table, c: nat, n: nat, clock: nat, adopted: nat)
    requires TableInv(t, clock, adopted) && Live(t, c) && n !in t && 1 <= n < MAX_TASKS
    ensures TableInv(Forked(t, c, n, clock), clock + 1, adopted)
  {
    ForkParented(t, c, n, clock);
    ForkQueued(t, c, n, clock);
    ForkDeadHeld(t, c, n, clock);
    ForkCounted(t, c, n, clock, adopted);
    ForkAwakeAged(t, c, n, clock);
  }

  lemma ForkAwakeAged(t: Table, c: nat, n: nat, clock: nat)
    requires Awake(t) && Aged(t, clock) && Parented(t) && Live(t, c) && n !in t
    ensures Awake(Forked(t, c, n, clock)) && Aged(Forked(t, c, n, clock), clock + 1)
  {
  }

  // ---------------------------------------------------------------- sys_wait

  /** The oldest dead child is taken out of the queue and destroyed. */
  function Reaped(t: Table, c: nat): Table
    requires c in t && t[c].queue != [] && t[c].queue[0] in t && t[c].children > 0
  {
    var z := t[c].queue[0];
    (t - {z})[c := t[c].(queue := t[c].queue[1..], children := t[c].children - 1, inWait := false)]
  }

  /** What collecting needs: a live collector with a dead child. */
  ghost predicate CanReap(t: Table, c: nat) {
    Parented(t) && HoldsDead(t) && Live(t, c) && t[c].state == Ready && t[c].queue != [] && t[c].children > 0
  }

  lemma ReapHead(t: Table, c: nat)
    requires CanReap(t, c)
    ensures var z := t[c].queue[0]; z in t && z != c && z != INIT && t[z].state == Exiting && t[z].ppid == c
    ensures forall p, i {:trigger t[p].queue[i]} ::
              p in t && 0 <= i < |t[p].queue| && !(p == c && i == 0) ==> t[p].queue[i] != t[c].queue[0]
  {
    assert IsDeadChild(t, c, t[c].queue[0]);
    forall p, i | p in t && 0 <= i < |t[p].queue| && !(p == c && i == 0)
      ensures t[p].queue[i] != t[c].queue[0]
    {
      assert IsDeadChild(t, p, t[p].queue[i]);
    }
  }

  lemma ReapParented(t: Table, c: nat)
    requires CanReap(t, c)
    ensures t[c].queue[0] in t && Parented(Reaped(t, c))
  {
    ReapHead(t, c);
  }

  lemma ReapHoldsDead(t: Table, c: nat)
    requires CanReap(t, c)
    ensures t[c].queue[0] in t && HoldsDead(Reaped(t, c))
  {
    ReapHead(t, c);
    var u := Reaped(t, c);
    forall p, i | p in u && 0 <= i < |u[p].queue|
      ensures IsDeadChild(u, p, u[p].queue[i])
    {
      assert IsDeadChild(t, p, t[p].queue[if p == c then i + 1 else i]);
    }
  }

  lemma ReapDeadHeld(t: Table, c: nat)
    requires CanReap(t, c) && DeadHeld(t)
    ensures t[c].queue[0] in t && DeadHeld(Reaped(t, c))
  {
    ReapHead(t, c);
    assert t[c].queue == [t[c].queue[0]] + t[c].queue[1..];
  }

  /** Taking tasks out of the table takes them out of the sets of children. */
  lemma ChildrenGone(t: Table, u: Table, gone: set<nat>, p: nat)
    requires u.Keys == t.Keys - gone && forall x {:trigger u[x].ppid} :: x in u ==> u[x].ppid == t[x].ppid
    ensures Children(u, p) == Children(t, p) - gone
  {
  }

  lemma ReapCounted(t: Table, c: nat, adopted: nat)
    requires CanReap(t, c) && Counted(t, adopted)
    ensures t[c].queue[0] in t && Counted(Reaped(t, c), adopted)
  {
    ReapHead(t, c);
    var z, u := t[c].queue[0], Reaped(t, c);
    forall p: nat | Live(u, p)
      ensures Children(u, p) == Children(t, p) - {z}
    {
      ChildrenGone(t, u, {z}, p);
    }
    assert z in Children(t, c);
    assert forall p :: p != c ==> z !in Children(t, p);
  }

  lemma ReapAwakeAged(t: Table, c: nat, clock: nat)
    requires CanReap(t, c) && Awake(t) && Aged(t, clock)
    ensures t[c].queue[0] in t && Awake(Reaped(t, c)) && Aged(Reaped(t, c), clock)
  {
    ReapHead(t, c);
  }

  lemma ReapInv(t: Table, c: nat, clock: nat, adopted: nat)
    requires TableInv(t, clock, adopted) && CanReap(t, c)
    ensures t[c].queue[0] in t && TableInv(Reaped(t, c), clock, adopted)
  {
    ReapParented(t, c);
    ReapHoldsDead(t, c);
    ReapDeadHeld(t, c);
    ReapCounted(t, c, adopted);
    ReapAwakeAged(t, c, clock);
  }

  /** Nothing to collect: sleep until a child dies. */
  function Blocked(t: Table, c: nat): Table
    requires c in t
  {
    t[c := t[c].(state := BlockWait, inWait := true)]
  }

  lemma BlockCounted(t: Table, c: nat, adopted: nat)
    requires Counted(t, adopted) && Live(t, c)
    ensures Counted(Blocked(t, c), adopted)
  {
    var u := Blocked(t, c);
    forall p | p in t
      ensures Children(u, p) == Children(t, p)
    {
    }
  }

  lemma BlockQueues(t: Table, c: nat)
    requires Parented(t) && HoldsDead(t) && DeadHeld(t) && Live(t, c)
    ensures Parented(Blocked(t, c)) && HoldsDead(Blocked(t, c)) && DeadHeld(Blocked(t, c))
  {
    var u := Blocked(t, c);
    forall p, i | p in u && 0 <= i < |u[p].queue|
      ensures IsDeadChild(u, p, u[p].queue[i])
    {
      assert IsDeadChild(t, p, t[p].queue[i]);
    }
  }

  lemma BlockInv(t: Table, c: nat, clock: nat, adopted: nat)
    requires TableInv(t, clock, adopted) && Live(t, c) && t[c].queue == [] && t[c].children > 0
    ensures TableInv(Blocked(t, c), clock, adopted)
  {
    BlockCounted(t, c, adopted);
    BlockQueues(t, c);
    BlockAwakeAged(t, c, clock);
  }

  lemma BlockAwakeAged(t: Table, c: nat, clock: nat)
    requires Awake(t) && Aged(t, clock) && Live(t, c) && t[c].queue == [] && t[c].children > 0
    ensures Awake(Blocked(t, c)) && Aged(Blocked(t, c), clock)
  {
  }

  // ---------------------------------------------------------------- sys_exit

  /** What exiting needs: a running task that is not init. */
  ghost predicate CanKill(t: Table, k: nat) {
    Parented(t) && HoldsDead(t) && Live(t, k) && k != INIT && t[k].state == Ready && !t[k].inWait
  }

  /** `task_kill`: collected children go, live children move to init, the task joins its parent's queue and a
      parent blocked in `sys_wait` wakes up. */
  function Killed(t: Table, k: nat, status: int): Table
    requires k in t && t[k].ppid in t
  {
    map p | p in t && p !in t[k].queue ::
      if p == k then
        t[k].(status := status, state := Exiting, queue := [],
              children := if t[k].children >= |t[k].queue| then t[k].children - |t[k].queue| else 0)
      else if p == t[k].ppid then
        t[p].(queue := t[p].queue + [k],
              state := if t[p].state == BlockWait then Ready else t[p].state)
      else if t[p].ppid == k then t[p].(ppid := INIT)
      else t[p]
  }

  /** The live children that init adopts. */
  function Orphans(t: Table, k: nat): set<nat>
    requires k in t
  {
    set c | c in t && t[c].ppid == k && c !in t[k].queue
  }

  /** Facts every proof about `Killed` starts from. */
  lemma KillFacts(t: Table, k: nat, clock: nat)
    requires CanKill(t, k) && Aged(t, clock)
    ensures Live(t, t[k].ppid) && t[k].ppid != k && t[t[k].ppid].ppid != k
    ensures t[k].ppid !in t[k].queue && INIT !in t[k].queue && k !in t[k].queue
    ensures forall z :: z in t[k].queue ==> IsDeadChild(t, k, z)
  {
    var par := t[k].ppid;
    forall z | z in t[k].queue
      ensures IsDeadChild(t, k, z)
    {
      var i :| 0 <= i < |t[k].queue| && t[k].queue[i] == z;
    }
    assert t[par].born < t[k].born;
    assert par != INIT ==> t[t[par].ppid].born < t[par].born;
  }

  lemma KillParented(t: Table, k: nat, status: int, clock: nat)
    requires CanKill(t, k) && Aged(t, clock)
    ensures t[k].ppid in t && Parented(Killed(t, k, status))
  {
    KillFacts(t, k, clock);
    var u := Killed(t, k, status);
    assert u[INIT].ppid == 0 && u[INIT].state != Exiting;
    forall p | p in u && p != INIT
      ensures Live(u, u[p].ppid)
    {
      assert Live(t, t[p].ppid);
      assert t[p].ppid !in t[k].queue;
      assert u[p].ppid == if p != k && t[p].ppid == k then INIT else t[p].ppid;
    }
  }

  lemma KillHoldsDead(t: Table, k: nat, status: int, clock: nat)
    requires CanKill(t, k) && Aged(t, clock)
    ensures t[k].ppid in t && HoldsDead(Killed(t, k, status))
  {
    KillFacts(t, k, clock);
    var u := Killed(t, k, status);
    forall p, i | p in u && 0 <= i < |u[p].queue|
      ensures IsDeadChild(u, p, u[p].queue[i])
    {
      KillQueueAt(t, k, status, clock, p, i);
    }
    forall p | p in u
      ensures Distinct(u[p].queue)
    {
      KillDistinct(t, k, status, clock, p);
    }
  }

  /** What a queue holds after the kill: what it held, and in the parent's the task itself. */
  lemma KillQueueAt(t: Table, k: nat, status: int, clock: nat, p: nat, i: int)
    requires CanKill(t, k) && Aged(t, clock) && Live(t, t[k].ppid)
    requires p in Killed(t, k, status) && 0 <= i < |Killed(t, k, status)[p].queue|
    ensures IsDeadChild(Killed(t, k, status), p, Killed(t, k, status)[p].queue[i])
  {
    KillFacts(t, k, clock);
    var u, par := Killed(t, k, status), t[k].ppid;
    if !(p == par && i == |t[par].queue|) {
      assert u[p].queue[i] == t[p].queue[i];
      assert IsDeadChild(t, p, t[p].queue[i]);
    }
  }

  lemma KillDistinct(t: Table, k: nat, status: int, clock: nat, p: nat)
    requires CanKill(t, k) && Aged(t, clock) && Live(t, t[k].ppid) && p in Killed(t, k, status)
    ensures Distinct(Killed(t, k, status)[p].queue)
  {
    forall i | 0 <= i < |t[p].queue|
      ensures t[p].queue[i] != k
    {
      assert IsDeadChild(t, p, t[p].queue[i]);
    }
  }

  lemma KillDeadHeld(t: Table, k: nat, status: int, clock: nat)
    requires CanKill(t, k) && Aged(t, clock) && DeadHeld(t)
    ensures t[k].ppid in t && DeadHeld(Killed(t, k, status))
  {
    KillFacts(t, k, clock);
    var u := Killed(t, k, status);
    forall z | z in u && u[z].state == Exiting && u[z].ppid in u
      ensures z in u[u[z].ppid].queue
    {
      if z != k {
        assert t[z].state == Exiting;
        assert t[z].ppid != k;
      }
    }
  }

  lemma KillAwake(t: Table, k: nat, status: int, clock: nat)
    requires CanKill(t, k) && Aged(t, clock) && Awake(t)
    ensures t[k].ppid in t && Awake(Killed(t, k, status))
  {
    KillFacts(t, k, clock);
    var u := Killed(t, k, status);
    forall p: nat | Live(u, p)
      ensures u[p].state == BlockWait ==> u[p].inWait && u[p].queue == []
      ensures u[p].inWait ==> u[p].children > 0
      ensures u[p].inWait && u[p].state == Ready ==> u[p].queue != []
    {
      assert Live(t, p);
    }
  }

  lemma KillAged(t: Table, k: nat, status: int, clock: nat)
    requires CanKill(t, k) && Aged(t, clock)
    ensures t[k].ppid in t && Aged(Killed(t, k, status), clock)
  {
    KillFacts(t, k, clock);
    var u := Killed(t, k, status);
    forall p: nat | Live(u, p)
      ensures u[p].born < clock
    {
      KillBorn(t, k, status, p);
      assert Live(t, p) && t[p].born < clock;
    }
    forall p: nat | Live(u, p) && p != INIT && u[p].ppid in u
      ensures u[u[p].ppid].born < u[p].born
    {
      KillAgedAt(t, k, status, clock, p);
    }
  }

  lemma KillBorn(t: Table, k: nat, status: int, p: nat)
    requires k in t && t[k].ppid in t && p in Killed(t, k, status)
    ensures p in t && Killed(t, k, status)[p].born == t[p].born && (Live(Killed(t, k, status), p) ==> Live(t, p) && p != k)
    ensures Killed(t, k, status)[p].ppid == t[p].ppid || (t[p].ppid == k && Killed(t, k, status)[p].ppid == INIT)
  {
  }

  lemma KillAgedAt(t: Table, k: nat, status: int, clock: nat, p: nat)
    requires CanKill(t, k) && Aged(t, clock) && t[k].ppid in t && p != INIT
    requires var u := Killed(t, k, status); Live(u, p) && u[p].ppid in u
    ensures var u := Killed(t, k, status); u[u[p].ppid].born < u[p].born
  {
    var u := Killed(t, k, status);
    KillBorn(t, k, status, p);
    KillBorn(t, k, status, u[p].ppid);
    if t[p].ppid == k {
      InitOldest(t, clock, k);
      assert t[k].born < t[p].born;
    }
  }

  /** Init is older than every other live task: following parents ends there. */
  lemma {:induction false} InitOldest(t: Table, clock: nat, p: nat)
    requires Parented(t) && Aged(t, clock) && Live(t, p) && p != INIT
    ensures t[INIT].born < t[p].born
    decreases t[p].born
  {
    var par := t[p].ppid;
    if par != INIT {
      InitOldest(t, clock, par);
    }
  }

  lemma KillChildren(t: Table, k: nat, status: int, clock: nat, p: nat)
    requires CanKill(t, k) && Aged(t, clock) && p != k
    ensures t[k].ppid in t
    ensures p != INIT ==> Children(Killed(t, k, status), p) == Children(t, p)
    ensures p == INIT ==> Children(Killed(t, k, status), p) == Children(t, p) + Orphans(t, k)
  {
    KillFacts(t, k, clock);
    var u := Killed(t, k, status);
    forall c | c in t
      ensures c in Children(u, p) <==> c in Children(t, p) || (p == INIT && c in Orphans(t, k))
    {
      if c in t[k].queue {
        assert IsDeadChild(t, k, c);
      } else {
        assert u[c].ppid == if c != k && t[c].ppid == k then INIT else t[c].ppid;
        assert t[k].ppid != k;
      }
    }
  }

  lemma KillCounted(t: Table, k: nat, status: int, clock: nat, adopted: nat)
    requires CanKill(t, k) && Aged(t, clock) && Counted(t, adopted)
    ensures t[k].ppid in t && Counted(Killed(t, k, status), adopted + |Orphans(t, k)|)
  {
    KillFacts(t, k, clock);
    var u := Killed(t, k, status);
    KillChildren(t, k, status, clock, INIT);
    assert Children(t, INIT) !! Orphans(t, k);
    forall p: nat | Live(u, p) && p != INIT
      ensures Live(t, p) && u[p].children == t[p].children && Children(u, p) == Children(t, p)
    {
      KillChildren(t, k, status, clock, p);
    }
  }

  lemma KillInv(t: Table, k: nat, status: int, clock: nat, adopted: nat)
    requires TableInv(t, clock, adopted) && CanKill(t, k)
    ensures t[k].ppid in t && TableInv(Killed(t, k, status), clock, adopted + |Orphans(t, k)|)
  {
    KillParented(t, k, status, clock);
    KillHoldsDead(t, k, status, clock);
    KillDeadHeld(t, k, status, clock);
    KillAwake(t, k, status, clock);
    KillAged(t, k, status, clock);
    KillCounted(t, k, status, clock, adopted);
  }

  // ---------------------------------------------------------------- somebody can always run

  predicate IsReady(t: Table, p: nat) { p in t && t[p].state == Ready }

  /** From any live task, following live children down reaches a ready one. */
  lemma {:induction false} ReadyBelow(t: Table, clock: nat, adopted: nat, p: nat) returns (r: nat)
    requires Parented(t) && DeadHeld(t) && Counted(t, adopted) && Awake(t) && Aged(t, clock) && Live(t, p)
    ensures IsReady(t, r)
    decreases clock - t[p].born
  {
    if t[p].state == Ready {
      r := p;
    } else {
      var c := LiveChild(t, adopted, p);
      assert t[c].ppid == p;
      assert c != INIT;
      r := ReadyBelow(t, clock, adopted, c);
    }
  }

  /** A blocked task has a live child. */
  lemma LiveChild(t: Table, adopted: nat, p: nat) returns (c: nat)
    requires Parented(t) && DeadHeld(t) && Counted(t, adopted) && Awake(t) && Live(t, p) && t[p].state == BlockWait
    ensures Live(t, c) && t[c].ppid == p && c != INIT
  {
    assert |Children(t, p)| > 0;
    c :| c in Children(t, p);
    assert t[c].ppid == p;
    assert t[c].state != Exiting;
  }

  /** The panic of `sched_next` is unreachable. */
  lemma SomeReady(t: Table, clock: nat, adopted: nat)
    requires TableInv(t, clock, adopted)
    ensures exists r :: IsReady(t, r)
  {
    var r := ReadyBelow(t, clock, adopted, INIT);
  }

  // ---------------------------------------------------------------- the scheduler

  /** First ready task among p, p + 1, ..., wrapping from 255 to 1, at most n of them. */
  function Scan(t: Table, p: nat, n: nat): (r: nat)
    requires 1 <= p < MAX_TASKS
    ensures r != 0 ==> IsReady(t, r) && 1 <= r < MAX_TASKS
    decreases n
  {
    if n == 0 then 0 else if IsReady(t, p) then p else Scan(t, After(p), n - 1)
  }

  function After(p: nat): nat
    requires 1 <= p < MAX_TASKS
  {
    if p + 1 < MAX_TASKS then p + 1 else 1
  }

  /** `sched_next`: cur + 1 .. 255, then 1 .. cur; 0 stands for the panic. */
  function NextTask(t: Table, cur: nat): nat
    requires 1 <= cur < MAX_TASKS
  {
    Scan(t, After(cur), MAX_TASKS - 1)
  }

  /** How many slots after `from` the slot p comes, 1 .. 255. */
  function Distance(from: nat, p: nat): int { if p > from then p - from else p - from + (MAX_TASKS - 1) }

  lemma {:induction false} ScanFinds(t: Table, from: nat, p: nat, n: nat, target: nat)
    requires 1 <= from < MAX_TASKS && 1 <= p < MAX_TASKS && 1 <= target < MAX_TASKS && IsReady(t, target)
    requires Distance(from, p) + n == MAX_TASKS && Distance(from, p) <= Distance(from, target)
    ensures Scan(t, p, n) != 0 && Distance(from, Scan(t, p, n)) <= Distance(from, target)
    decreases n
  {
    if !IsReady(t, p) {
      ScanFinds(t, from, After(p), n - 1, target);
    }
  }

  /** The task chosen comes no later, in cyclic order, than any ready task. */
  lemma NextIsNearest(t: Table, cur: nat, target: nat)
    requires 1 <= cur < MAX_TASKS && 1 <= target < MAX_TASKS && IsReady(t, target)
    ensures NextTask(t, cur) != 0 && IsReady(t, NextTask(t, cur))
    ensures Distance(cur, NextTask(t, cur)) <= Distance(cur, target)
  {
    ScanFinds(t, cur, After(cur), MAX_TASKS - 1, target);
  }

  // ---------------------------------------------------------------- steps and runs

  datatype Event = Fork | Exit(status: int) | Wait | Yield

  /** Lowest free pid from n on; MAX_TASKS when there is none. */
  function FreePid(t: Table, n: nat): (r: nat)
    requires n <= MAX_TASKS
    ensures n <= r <= MAX_TASKS && (r < MAX_TASKS ==> r !in t) && forall i :: n <= i < r ==> i in t
    decreases MAX_TASKS - n
  {
    if n == MAX_TASKS || n !in t then n else FreePid(t, n + 1)
  }

  /** A task resumed inside `sys_wait` can only go on there; init does not exit (the machine shuts down);
      fork needs a free pid (the code does not check). */
  predicate Enabled(s: Sys, e: Event)
    requires s.cur in s.table
  {
    match e
    case Fork => !s.table[s.cur].inWait && FreePid(s.table, 1) < MAX_TASKS
    case Exit(_) => !s.table[s.cur].inWait && s.cur != INIT
    case Wait => true
    case Yield => !s.table[s.cur].inWait
  }

  function Switched(s: Sys, t: Table): Sys
    requires 1 <= s.cur < MAX_TASKS
  {
    s.(table := t, cur := NextTask(t, s.cur))
  }

  ghost function Step(s: Sys, e: Event): Sys
    requires Inv(s) && Enabled(s, e)
  {
    var t, c := s.table, s.cur;
    match e
    case Fork => s.(table := Forked(t, c, FreePid(t, 1), s.clock), clock := s.clock + 1)
    case Exit(status) => Switched(s, Killed(t, c, status)).(adopted := s.adopted + |Orphans(t, c)|)
    case Yield => Switched(s, t)
    case Wait =>
      if t[c].children == 0 then s
      else if t[c].queue != [] then ReapHead(t, c); s.(table := Reaped(t, c))
      else Switched(s, Blocked(t, c))
  }

  lemma SwitchInv(s: Sys, t: Table, adopted: nat)
    requires 1 <= s.cur < MAX_TASKS && TableInv(t, s.clock, adopted)
    ensures Inv(Switched(s, t).(adopted := adopted))
  {
    SomeReady(t, s.clock, adopted);
    var r: nat :| IsReady(t, r);
    NextIsNearest(t, s.cur, r);
  }

  lemma StepInv(s: Sys, e: Event)
    requires Inv(s) && Enabled(s, e)
    ensures Inv(Step(s, e))
  {
    var t, c := s.table, s.cur;
    match e
    case Fork =>
      ForkInv(t, c, FreePid(t, 1), s.clock, s.adopted);
    case Exit(status) =>
      KillInv(t, c, status, s.clock, s.adopted);
      SwitchInv(s, Killed(t, c, status), s.adopted + |Orphans(t, c)|);
    case Yield =>
      SwitchInv(s, t, s.adopted);
    case Wait =>
      if t[c].children > 0 && t[c].queue != [] {
        ReapInv(t, c, s.clock, s.adopted);
      } else if t[c].children > 0 {
        BlockInv(t, c, s.clock, s.adopted);
        SwitchInv(s, Blocked(t, c), s.adopted);
      }
  }

  ghost predicate IsRun(s: Sys, es: seq<Event>)
    requires Inv(s)
    decreases |es|
  {
    es == [] || (Enabled(s, es[0]) && (StepInv(s, es[0]); IsRun(Step(s, es[0]), es[1..])))
  }

  ghost function Run(s: Sys, es: seq<Event>): Sys
    requires Inv(s) && IsRun(s, es)
    decreases |es|
  {
    if es == [] then s else
    StepInv(s, es[0]);
    Run(Step(s, es[0]), es[1..])
  }

  /** Every state of every run of fork, exit, wait, yield and ticks satisfies the invariant. */
  lemma {:induction false} RunInv(s: Sys, es: seq<Event>)
    requires Inv(s) && IsRun(s, es)
    ensures Inv(Run(s, es))
    decreases |es|
  {
    if es != [] {
      StepInv(s, es[0]);
      RunInv(Step(s, es[0]), es[1..]);
    }
  }

  // ---------------------------------------------------------------- exit statuses are delivered in order, once

  /** What waits in p's queue: pid and exit status of each dead child, oldest death first. */
  ghost function Pending(t: Table, p: nat): seq<(nat, int)>
    requires HoldsDead(t) && p in t
  {
    assert InTable(t, t[p].queue) by {
      forall i | 0 <= i < |t[p].queue| ensures t[p].queue[i] in t { assert IsDeadChild(t, p, t[p].queue[i]); }
    }
    Statuses(t, t[p].queue)
  }

  /** What the step returns from `sys_wait` to p. */
  ghost function Returned(s: Sys, e: Event, p: nat): seq<(nat, int)>
    requires Inv(s) && p in s.table
  {
    if e == Wait && s.cur == p && s.table[p].children > 0 && s.table[p].queue != []
    then Pending(s.table, p)[..1] else []
  }

  /** The child of p that dies in the step. */
  ghost function Died(s: Sys, e: Event, p: nat): seq<(nat, int)>
    requires Inv(s)
  {
    if e.Exit? && s.table[s.cur].ppid == p then [(s.cur, e.status)] else []
  }

  lemma KillPending(t: Table, k: nat, status: int, clock: nat, p: nat)
    requires CanKill(t, k) && Aged(t, clock) && Live(t, p) && p != k
    ensures t[k].ppid in t && HoldsDead(Killed(t, k, status)) && Live(Killed(t, k, status), p)
    ensures Pending(Killed(t, k, status), p) == Pending(t, p) + if t[k].ppid == p then [(k, status)] else []
  {
    KillFacts(t, k, clock);
    KillHoldsDead(t, k, status, clock);
    var u := Killed(t, k, status);
    forall i | 0 <= i < |t[p].queue|
      ensures t[p].queue[i] in u && u[t[p].queue[i]].status == t[t[p].queue[i]].status
    {
      assert IsDeadChild(t, p, t[p].queue[i]);
    }
  }

  lemma ReapPending(t: Table, c: nat, p: nat)
    requires CanReap(t, c) && Live(t, p)
    ensures t[c].queue[0] in t && HoldsDead(Reaped(t, c)) && Live(Reaped(t, c), p)
    ensures Pending(t, p) == (if p == c then Pending(t, p)[..1] else []) + Pending(Reaped(t, c), p)
  {
    ReapHead(t, c);
    ReapHoldsDead(t, c);
    var u := Reaped(t, c);
    assert p == c ==> forall i :: 0 <= i < |u[c].queue| ==> u[c].queue[i] == t[c].queue[i + 1];
  }

  lemma SamePending(t: Table, u: Table, p: nat)
    requires HoldsDead(t) && HoldsDead(u) && p in t && p in u && u[p].queue == t[p].queue
    requires forall z {:trigger u[z].status} :: z in t && z in u ==> u[z].status == t[z].status
    ensures Pending(u, p) == Pending(t, p)
  {
    forall i | 0 <= i < |t[p].queue|
      ensures t[p].queue[i] in t && t[p].queue[i] in u
    {
      assert IsDeadChild(t, p, t[p].queue[i]) && IsDeadChild(u, p, u[p].queue[i]);
    }
  }

  lemma ForkPending(t: Table, c: nat, n: nat, clock: nat, p: nat)
    requires Parented(t) && HoldsDead(t) && Live(t, c) && n !in t && 1 <= n && Live(t, p)
    ensures HoldsDead(Forked(t, c, n, clock)) && Live(Forked(t, c, n, clock), p)
    ensures Pending(Forked(t, c, n, clock), p) == Pending(t, p)
  {
    ForkQueued(t, c, n, clock);
    SamePending(t, Forked(t, c, n, clock), p);
  }

  lemma BlockPending(t: Table, c: nat, p: nat)
    requires Parented(t) && HoldsDead(t) && DeadHeld(t) && Live(t, c) && Live(t, p)
    ensures HoldsDead(Blocked(t, c)) && Live(Blocked(t, c), p) && Pending(Blocked(t, c), p) == Pending(t, p)
  {
    BlockQueues(t, c);
    SamePending(t, Blocked(t, c), p);
  }

  /** What was pending and what dies now are what is returned now and what stays pending. */
  ghost predicate Conserves(s: Sys, e: Event, p: nat)
    requires Inv(s) && Enabled(s, e) && p in s.table
  {
    && Live(Step(s, e).table, p) && HoldsDead(Step(s, e).table)
    && Pending(s.table, p) + Died(s, e, p) == Returned(s, e, p) + Pending(Step(s, e).table, p)
  }

  lemma ForkFifo(s: Sys, p: nat)
    requires Inv(s) && Enabled(s, Fork) && Live(s.table, p)
    ensures Conserves(s, Fork, p)
  {
    ForkPending(s.table, s.cur, FreePid(s.table, 1), s.clock, p);
  }

  lemma ExitFifo(s: Sys, status: int, p: nat)
    requires Inv(s) && Enabled(s, Exit(status)) && Live(s.table, p) && s.cur != p
    ensures Conserves(s, Exit(status), p)
  {
    var t := s.table;
    KillPending(t, s.cur, status, s.clock, p);
    var u := Killed(t, s.cur, status);
    StepTable(s, status, u);
    assert Pending(u, p) == Pending(t, p) + Died(s, Exit(status), p);
    assert Returned(s, Exit(status), p) + Pending(u, p) == Pending(u, p);
  }

  lemma StepTable(s: Sys, status: int, u: Table)
    requires Inv(s) && Enabled(s, Exit(status)) && s.table[s.cur].ppid in s.table && u == Killed(s.table, s.cur, status)
    ensures Step(s, Exit(status)).table == u
  {
  }

  lemma ReapFifo(s: Sys, p: nat)
    requires Inv(s) && Enabled(s, Wait) && Live(s.table, p) && s.table[s.cur].children > 0 && s.table[s.cur].queue != []
    ensures Conserves(s, Wait, p)
  {
    var t, c := s.table, s.cur;
    ReapPending(t, c, p);
    assert Step(s, Wait).table == Reaped(t, c) && Died(s, Wait, p) == [];
    assert Pending(t, p) == Returned(s, Wait, p) + Pending(Reaped(t, c), p);
  }

  /** Nobody dies and nothing is returned. */
  lemma NothingPasses(s: Sys, e: Event, p: nat, u: Table)
    requires Inv(s) && Enabled(s, e) && Live(s.table, p) && Step(s, e).table == u && Live(u, p) && HoldsDead(u)
    requires Died(s, e, p) == [] == Returned(s, e, p) && Pending(u, p) == Pending(s.table, p)
    ensures Conserves(s, e, p)
  {
    assert Pending(s.table, p) + [] == [] + Pending(u, p);
  }

  lemma BlockTable(s: Sys)
    requires Inv(s) && Enabled(s, Wait) && s.table[s.cur].children > 0 && s.table[s.cur].queue == []
    ensures Step(s, Wait).table == Blocked(s.table, s.cur)
  {
  }

  lemma BlockFifo(s: Sys, p: nat)
    requires Inv(s) && Enabled(s, Wait) && Live(s.table, p) && s.table[s.cur].children > 0 && s.table[s.cur].queue == []
    ensures Conserves(s, Wait, p)
  {
    BlockTable(s);
    BlockPending(s.table, s.cur, p);
    NothingPasses(s, Wait, p, Blocked(s.table, s.cur));
  }

  lemma WaitFifo(s: Sys, p: nat)
    requires Inv(s) && Enabled(s, Wait) && Live(s.table, p)
    ensures Conserves(s, Wait, p)
  {
    if s.table[s.cur].children == 0 {
      assert Step(s, Wait) == s && Died(s, Wait, p) == [] == Returned(s, Wait, p);
    } else if s.table[s.cur].queue == [] {
      BlockFifo(s, p);
    } else {
      ReapFifo(s, p);
    }
  }

  lemma StepFifo(s: Sys, e: Event, p: nat)
    requires Inv(s) && Enabled(s, e) && Live(s.table, p) && !(e.Exit? && s.cur == p)
    ensures Inv(Step(s, e)) && Conserves(s, e, p)
  {
    StepInv(s, e);
    match e
    case Fork => ForkFifo(s, p);
    case Exit(status) => ExitFifo(s, status, p);
    case Wait => WaitFifo(s, p);
    case Yield =>
  }

  /** p does not exit during the run. */
  ghost predicate Survives(s: Sys, es: seq<Event>, p: nat)
    requires Inv(s) && IsRun(s, es)
    decreases |es|
  {
    es == [] || (StepInv(s, es[0]); !(es[0].Exit? && s.cur == p) && Survives(Step(s, es[0]), es[1..], p))
  }

  ghost function AllReturned(s: Sys, es: seq<Event>, p: nat): seq<(nat, int)>
    requires Inv(s) && IsRun(s, es) && Live(s.table, p) && Survives(s, es, p)
    decreases |es|
  {
    if es == [] then [] else
    StepFifo(s, es[0], p);
    Returned(s, es[0], p) + AllReturned(Step(s, es[0]), es[1..], p)
  }

  ghost function AllDied(s: Sys, es: seq<Event>, p: nat): seq<(nat, int)>
    requires Inv(s) && IsRun(s, es)
    decreases |es|
  {
    if es == [] then [] else
    StepInv(s, es[0]);
    Died(s, es[0], p) + AllDied(Step(s, es[0]), es[1..], p)
  }

  /** Whole runs: the deaths of p's children, in order, are exactly what p's `sys_wait` calls return, in order,
      followed by what is still queued: nothing lost, nothing twice, first in first out. */
  lemma {:induction false} RunFifo(s: Sys, es: seq<Event>, p: nat)
    requires Inv(s) && IsRun(s, es) && Live(s.table, p) && Survives(s, es, p)
    ensures Inv(Run(s, es)) && Live(Run(s, es).table, p)
    ensures Pending(s.table, p) + AllDied(s, es, p) == AllReturned(s, es, p) + Pending(Run(s, es).table, p)
    decreases |es|
  {
    if es != [] {
      StepFifo(s, es[0], p);
      var s' := Step(s, es[0]);
      RunFifo(s', es[1..], p);
      Regroup(Pending(s.table, p), Died(s, es[0], p), AllDied(s', es[1..], p), Returned(s, es[0], p),
              Pending(s'.table, p), AllReturned(s', es[1..], p), Pending(Run(s, es).table, p));
    }
  }

  lemma Regroup<T>(q0: seq<T>, d: seq<T>, ds: seq<T>, r: seq<T>, q1: seq<T>, rs: seq<T>, q2: seq<T>)
    requires q0 + d == r + q1 && q1 + ds == rs + q2
    ensures q0 + (d + ds) == (r + rs) + q2
  {
    assert q0 + (d + ds) == (q0 + d) + ds == r + (q1 + ds) == (r + rs) + q2;
  }

  // ---------------------------------------------------------------- when sys_wait reports ECHILD

  /** Forks by p during the run. */
  ghost function Forks(s: Sys, es: seq<Event>, p: nat): nat
    requires Inv(s) && IsRun(s, es)
    decreases |es|
  {
    if es == [] then 0 else
    StepInv(s, es[0]);
    (if es[0] == Fork && s.cur == p then 1 else 0) + Forks(Step(s, es[0]), es[1..], p)
  }

  /** Live children left behind by the tasks that exit during the run. */
  ghost function Orphaned(s: Sys, es: seq<Event>): nat
    requires Inv(s) && IsRun(s, es)
    decreases |es|
  {
    if es == [] then 0 else
    StepInv(s, es[0]);
    (if es[0].Exit? then |Orphans(s.table, s.cur)| else 0) + Orphaned(Step(s, es[0]), es[1..])
  }

  /** No task exits while it has live children. */
  ghost predicate NobodyOrphaned(s: Sys, es: seq<Event>)
    requires Inv(s) && IsRun(s, es)
    decreases |es|
  {
    es == [] ||
      (StepInv(s, es[0]); (es[0].Exit? ==> Orphans(s.table, s.cur) == {}) && NobodyOrphaned(Step(s, es[0]), es[1..]))
  }

  /** The counter of a task goes up with its forks and down with what its waits return, and with nothing else. */
  lemma StepCounter(s: Sys, e: Event, p: nat)
    requires Inv(s) && Enabled(s, e) && Live(s.table, p) && !(e.Exit? && s.cur == p)
    ensures Live(Step(s, e).table, p)
    ensures Step(s, e).table[p].children + |Returned(s, e, p)| == s.table[p].children + if e == Fork && s.cur == p then 1 else 0
  {
    StepFifo(s, e, p);
    match e
    case Fork =>
    case Yield =>
    case Exit(status) => KillCounter(s.table, s.cur, status, s.clock, p);
    case Wait => WaitCounter(s, p);
  }

  lemma KillCounter(t: Table, k: nat, status: int, clock: nat, p: nat)
    requires CanKill(t, k) && Aged(t, clock) && Live(t, p) && p != k
    ensures t[k].ppid in t && p in Killed(t, k, status) && Killed(t, k, status)[p].children == t[p].children
  {
    KillFacts(t, k, clock);
  }

  lemma WaitCounter(s: Sys, p: nat)
    requires Inv(s) && Live(s.table, p)
    ensures p in Step(s, Wait).table
    ensures Step(s, Wait).table[p].children + |Returned(s, Wait, p)| == s.table[p].children
  {
    var t, c := s.table, s.cur;
    if t[c].children > 0 && t[c].queue != [] {
      ReapHead(t, c);
      assert p == c ==> |Pending(t, p)| == |t[p].queue|;
    }
  }

  /** Over a whole run: forks by p minus children collected by p. */
  lemma {:induction false} RunCounter(s: Sys, es: seq<Event>, p: nat)
    requires Inv(s) && IsRun(s, es) && Live(s.table, p) && Survives(s, es, p)
    ensures p in Run(s, es).table
    ensures Run(s, es).table[p].children + |AllReturned(s, es, p)| == s.table[p].children + Forks(s, es, p)
    decreases |es|
  {
    if es != [] {
      StepFifo(s, es[0], p);
      StepCounter(s, es[0], p);
      RunCounter(Step(s, es[0]), es[1..], p);
    }
  }

  lemma {:induction false} RunOrphaned(s: Sys, es: seq<Event>)
    requires Inv(s) && IsRun(s, es)
    ensures Run(s, es).adopted == s.adopted + Orphaned(s, es)
    ensures Orphaned(s, es) == 0 <==> NobodyOrphaned(s, es)
    decreases |es|
  {
    if es != [] {
      StepInv(s, es[0]);
      RunOrphaned(Step(s, es[0]), es[1..]);
      assert es[0].Exit? ==> (|Orphans(s.table, s.cur)| == 0 <==> Orphans(s.table, s.cur) == {});
    }
  }

  /** Init never exits. */
  lemma {:induction false} InitSurvives(s: Sys, es: seq<Event>)
    requires Inv(s) && IsRun(s, es)
    ensures Survives(s, es, INIT)
    decreases |es|
  {
    if es != [] {
      StepInv(s, es[0]);
      InitSurvives(Step(s, es[0]), es[1..]);
    }
  }

  /** How many children init has after a run: those it forked and those it was handed, minus those it collected. */
  lemma InitChildren(es: seq<Event>)
    requires Inv(Boot()) && IsRun(Boot(), es)
    ensures Survives(Boot(), es, INIT) && INIT in Run(Boot(), es).table
    ensures var t, forks, got := Run(Boot(), es).table, Forks(Boot(), es, INIT), |AllReturned(Boot(), es, INIT)|;
            t[INIT].children == forks - got && |Children(t, INIT)| == forks + Orphaned(Boot(), es) - got
  {
    InitSurvives(Boot(), es);
    RunInv(Boot(), es);
    RunCounter(Boot(), es, INIT);
    RunOrphaned(Boot(), es);
  }

  /** When `sys_wait` reports ECHILD, over every run from boot.  A task other than init gets the report exactly when it has
      no child.  Init gets it exactly when it has collected as many children as it forked, whichever they were; and what
      it is told is right exactly when it does not get the report or no task of the run exited before its children. */
  lemma WaitFailsIff(es: seq<Event>)
    requires Inv(Boot()) && IsRun(Boot(), es)
    ensures Inv(Run(Boot(), es)) && Survives(Boot(), es, INIT)
    ensures var s := Run(Boot(), es);
            s.cur != INIT ==> (s.table[s.cur].children == 0 <==> Children(s.table, s.cur) == {})
    ensures var s := Run(Boot(), es);
            s.table[INIT].children == 0 <==> |AllReturned(Boot(), es, INIT)| == Forks(Boot(), es, INIT)
    ensures var s := Run(Boot(), es);
            (s.table[INIT].children == 0 <==> Children(s.table, INIT) == {}) <==>
            (|AllReturned(Boot(), es, INIT)| < Forks(Boot(), es, INIT) || NobodyOrphaned(Boot(), es))
  {
    RunInv(Boot(), es);
    InitChildren(es);
    RunOrphaned(Boot(), es);
    var s := Run(Boot(), es);
    assert |Children(s.table, s.cur)| == 0 <==> Children(s.table, s.cur) == {};
    assert |Children(s.table, INIT)| == 0 <==> Children(s.table, INIT) == {};
  }
}
