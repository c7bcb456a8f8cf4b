/** Two runs from boot after which init's `sys_wait` reports that it has no child, and it has one. */
module TaskExamples {
  import opened TaskSpec

  ghost predicate Steps(s: Sys, e: Event, s': Sys) { Inv(s) && Enabled(s, e) && Step(s, e) == s' && Inv(s') }

  ghost predicate Reaches(s: Sys, es: seq<Event>, s': Sys) { Inv(s) && IsRun(s, es) && Run(s, es) == s' }

  lemma Then(s: Sys, e: Event, s1: Sys, es: seq<Event>, s2: Sys)
    requires Steps(s, e, s1) && Reaches(s1, es, s2)
    ensures Reaches(s, [e] + es, s2)
  {
    assert ([e] + es)[1..] == es;
  }

  /** Three steps before the rest of a run. */
  lemma Three(s0: Sys, e1: Event, s1: Sys, e2: Event, s2: Sys, e3: Event, s3: Sys, es: seq<Event>, s: Sys)
    requires Steps(s0, e1, s1) && Steps(s1, e2, s2) && Steps(s2, e3, s3) && Reaches(s3, es, s)
    ensures Reaches(s0, [e1] + ([e2] + ([e3] + es)), s)
  {
    Then(s2, e3, s3, es, s);
    Then(s1, e2, s2, [e3] + es, s);
    Then(s0, e1, s1, [e2] + ([e3] + es), s);
  }

  lemma ForkTo(s: Sys, s': Sys)
    requires Inv(s) && Enabled(s, Fork)
    requires s' == s.(table := Forked(s.table, s.cur, FreePid(s.table, 1), s.clock), clock := s.clock + 1)
    ensures Steps(s, Fork, s')
  {
    StepInv(s, Fork);
  }

  lemma YieldTo(s: Sys, s': Sys)
    requires Inv(s) && Enabled(s, Yield) && s' == s.(cur := NextTask(s.table, s.cur))
    ensures Steps(s, Yield, s')
  {
    StepInv(s, Yield);
  }

  lemma ExitTo(s: Sys, status: int, s': Sys)
    requires Inv(s) && Enabled(s, Exit(status)) && s.table[s.cur].ppid in s.table
    requires s'.table == Killed(s.table, s.cur, status) && s'.cur == NextTask(s'.table, s.cur) && s'.clock == s.clock
    requires s'.adopted == s.adopted + |Orphans(s.table, s.cur)|
    ensures Steps(s, Exit(status), s')
  {
    StepInv(s, Exit(status));
  }

  lemma CollectTo(s: Sys, s': Sys)
    requires Inv(s) && s.table[s.cur].children != 0 && s.table[s.cur].queue != []
    requires s.table[s.cur].queue[0] in s.table && s' == s.(table := Reaped(s.table, s.cur))
    ensures Steps(s, Wait, s')
  {
    StepInv(s, Wait);
  }

  function InitProc(children: nat, queue: seq<nat>): Proc { Proc(0, Ready, 0, children, false, queue, 0) }

  function Alive(ppid: nat, children: nat, born: nat): Proc { Proc(ppid, Ready, 0, children, false, [], born) }

  function Dead(status: int, children: nat, born: nat): Proc { Proc(1, Exiting, status, children, false, [], born) }

  // ---------------------------------------------------------------- a dead child nobody can collect

  // init forks 2; 2 forks 3 and exits; 3, now init's, exits; init collects 2.

  function A1(): Sys { Sys(map[1 := InitProc(1, []), 2 := Alive(1, 0, 1)], 1, 2, 0) }
  function A2(): Sys { A1().(cur := 2) }
  function A3(): Sys { Sys(map[1 := InitProc(1, []), 2 := Alive(1, 1, 1), 3 := Alive(2, 0, 2)], 2, 3, 0) }
  function A4(): Sys { Sys(map[1 := InitProc(1, [2]), 2 := Dead(7, 1, 1), 3 := Alive(1, 0, 2)], 3, 3, 1) }
  function A5(): Sys { Sys(map[1 := InitProc(1, [2, 3]), 2 := Dead(7, 1, 1), 3 := Dead(8, 0, 2)], 1, 3, 1) }
  function A6(): Sys { Sys(map[1 := InitProc(0, [3]), 3 := Dead(8, 0, 2)], 1, 3, 1) }

  lemma StepA1()
    ensures Steps(Boot(), Fork, A1())
  {
    BootInv();
    assert FreePid(Boot().table, 2) == 2;
    ForkTo(Boot(), A1());
  }

  lemma StepA2()
    requires Inv(A1())
    ensures Steps(A1(), Yield, A2())
  {
    NextIsNearest(A1().table, 1, 2);
    YieldTo(A1(), A2());
  }

  lemma StepA3()
    requires Inv(A2())
    ensures Steps(A2(), Fork, A3())
  {
    ForkA3();
    ForkTo(A2(), A3());
  }

  lemma ForkA3()
    ensures var t := A2().table; FreePid(t, 1) == 3 && Forked(t, 2, 3, 2) == A3().table
  {
    var t := A2().table;
    assert FreePid(t, 3) == 3 && FreePid(t, 2) == 3;
  }

  lemma KillA4()
    ensures var t := A3().table; Orphans(t, 2) == {3} && Killed(t, 2, 7) == A4().table
  {
    var u := Killed(A3().table, 2, 7);
    assert u.Keys == {1, 2, 3} && [] + [2] == [2];
    assert u[1] == InitProc(1, [2]) && u[2] == Dead(7, 1, 1) && u[3] == Alive(1, 0, 2);
  }

  lemma StepA4()
    requires Inv(A3())
    ensures Steps(A3(), Exit(7), A4())
  {
    KillA4();
    NextIsNearest(A4().table, 2, 3);
    ExitTo(A3(), 7, A4());
  }

  lemma KillA5()
    ensures var t := A4().table; Orphans(t, 3) == {} && Killed(t, 3, 8) == A5().table
  {
    var u := Killed(A4().table, 3, 8);
    assert u.Keys == {1, 2, 3} && [2] + [3] == [2, 3];
    assert u[1] == InitProc(1, [2, 3]) && u[2] == Dead(7, 1, 1) && u[3] == Dead(8, 0, 2);
  }

  lemma StepA5()
    requires Inv(A4())
    ensures Steps(A4(), Exit(8), A5())
  {
    KillA5();
    NextIsNearest(A5().table, 3, 1);
    ExitTo(A4(), 8, A5());
  }

  lemma ReapA6()
    ensures var t := A5().table; Reaped(t, 1) == A6().table
  {
    var u := Reaped(A5().table, 1);
    assert u.Keys == {1, 3} && [2, 3][1..] == [3];
    assert u[1] == InitProc(0, [3]) && u[3] == Dead(8, 0, 2);
  }

  lemma StepA6()
    requires Inv(A5())
    ensures Steps(A5(), Wait, A6())
  {
    ReapA6();
    CollectTo(A5(), A6());
  }

  lemma ReachA6()
    ensures Inv(A6()) && Reaches(Boot(), [Fork] + ([Yield] + ([Fork] + ([Exit(7)] + ([Exit(8)] + ([Wait] + []))))), A6())
  {
    StepA1();
    StepA2();
    StepA3();
    ReachA6From3();
    Three(Boot(), Fork, A1(), Yield, A2(), Fork, A3(), [Exit(7)] + ([Exit(8)] + ([Wait] + [])), A6());
  }

  lemma ReachA6From3()
    requires Inv(A3())
    ensures Inv(A6()) && Reaches(A3(), [Exit(7)] + ([Exit(8)] + ([Wait] + [])), A6())
  {
    StepA4();
    StepA5();
    StepA6();
    Three(A3(), Exit(7), A4(), Exit(8), A5(), Wait, A6(), [], A6());
  }

  /** After this run init has a dead child in its queue and `sys_wait` does not find it. */
  lemma EchildWithDeadChild(es: seq<Event>)
    requires es == [Fork, Yield, Fork, Exit(7), Exit(8), Wait]
    ensures Reaches(Boot(), es, A6())
    ensures var s := A6(); Inv(s) && s.cur == INIT && s.table[INIT].queue == [3] && s.table[INIT].children == 0 && Step(s, Wait) == s
  {
    ReachA6();
    assert es == [Fork] + ([Yield] + ([Fork] + ([Exit(7)] + ([Exit(8)] + ([Wait] + [])))));
  }

  // ---------------------------------------------------------------- an own, live child nobody waits for

  // init forks 2 and 3; 2 forks 4 and exits; 4, now init's, exits; init collects both and is left with 3.

  function B2(): Sys { Sys(map[1 := InitProc(2, []), 2 := Alive(1, 0, 1), 3 := Alive(1, 0, 2)], 1, 3, 0) }
  function B3(): Sys { B2().(cur := 2) }
  function B4(): Sys {
    Sys(map[1 := InitProc(2, []), 2 := Alive(1, 1, 1), 3 := Alive(1, 0, 2), 4 := Alive(2, 0, 3)], 2, 4, 0)
  }
  function B5(): Sys {
    Sys(map[1 := InitProc(2, [2]), 2 := Dead(7, 1, 1), 3 := Alive(1, 0, 2), 4 := Alive(1, 0, 3)], 3, 4, 1)
  }
  function B6(): Sys { B5().(cur := 4) }
  function B7(): Sys {
    Sys(map[1 := InitProc(2, [2, 4]), 2 := Dead(7, 1, 1), 3 := Alive(1, 0, 2), 4 := Dead(8, 0, 3)], 1, 4, 1)
  }
  function B8(): Sys { Sys(map[1 := InitProc(1, [4]), 3 := Alive(1, 0, 2), 4 := Dead(8, 0, 3)], 1, 4, 1) }
  function B9(): Sys { Sys(map[1 := InitProc(0, []), 3 := Alive(1, 0, 2)], 1, 4, 1) }

  lemma StepB2()
    requires Inv(A1())
    ensures Steps(A1(), Fork, B2())
  {
    ForkB2();
    ForkTo(A1(), B2());
  }

  lemma ForkB2()
    ensures var t := A1().table; FreePid(t, 1) == 3 && Forked(t, 1, 3, 2) == B2().table
  {
    var t := A1().table;
    assert FreePid(t, 3) == 3 && FreePid(t, 2) == 3;
  }

  lemma StepB3()
    requires Inv(B2())
    ensures Steps(B2(), Yield, B3())
  {
    NextIsNearest(B2().table, 1, 2);
    YieldTo(B2(), B3());
  }

  lemma ForkB4()
    ensures var t := B3().table; FreePid(t, 1) == 4 && Forked(t, 2, 4, 3) == B4().table
  {
    var t := B3().table;
    assert FreePid(t, 4) == 4 && FreePid(t, 3) == 4 && FreePid(t, 2) == 4;
  }

  lemma StepB4()
    requires Inv(B3())
    ensures Steps(B3(), Fork, B4())
  {
    ForkB4();
    ForkTo(B3(), B4());
  }

  lemma KillB5()
    ensures var t := B4().table; Orphans(t, 2) == {4} && Killed(t, 2, 7) == B5().table
  {
    var u := Killed(B4().table, 2, 7);
    assert u.Keys == {1, 2, 3, 4} && [] + [2] == [2];
    assert u[1] == InitProc(2, [2]) && u[2] == Dead(7, 1, 1) && u[3] == Alive(1, 0, 2) && u[4] == Alive(1, 0, 3);
  }

  lemma StepB5()
    requires Inv(B4())
    ensures Steps(B4(), Exit(7), B5())
  {
    KillB5();
    NextIsNearest(B5().table, 2, 3);
    ExitTo(B4(), 7, B5());
  }

  lemma StepB6()
    requires Inv(B5())
    ensures Steps(B5(), Yield, B6())
  {
    NextIsNearest(B5().table, 3, 4);
    YieldTo(B5(), B6());
  }

  lemma KillB7()
    ensures var t := B6().table; Orphans(t, 4) == {} && Killed(t, 4, 8) == B7().table
  {
    var u := Killed(B6().table, 4, 8);
    assert u.Keys == {1, 2, 3, 4} && [2] + [4] == [2, 4];
    assert u[1] == InitProc(2, [2, 4]) && u[2] == Dead(7, 1, 1) && u[3] == Alive(1, 0, 2) && u[4] == Dead(8, 0, 3);
  }

  lemma StepB7()
    requires Inv(B6())
    ensures Steps(B6(), Exit(8), B7())
  {
    KillB7();
    NextIsNearest(B7().table, 4, 1);
    ExitTo(B6(), 8, B7());
  }

  lemma ReapB8()
    ensures var t := B7().table; Reaped(t, 1) == B8().table
  {
    var u := Reaped(B7().table, 1);
    assert u.Keys == {1, 3, 4} && [2, 4][1..] == [4];
    assert u[1] == InitProc(1, [4]) && u[3] == Alive(1, 0, 2) && u[4] == Dead(8, 0, 3);
  }

  lemma ReapB9()
    ensures var t := B8().table; Reaped(t, 1) == B9().table
  {
    var u := Reaped(B8().table, 1);
    assert u.Keys == {1, 3} && [4][1..] == [];
    assert u[1] == InitProc(0, []) && u[3] == Alive(1, 0, 2);
  }

  lemma StepB8()
    requires Inv(B7())
    ensures Steps(B7(), Wait, B8())
  {
    ReapB8();
    CollectTo(B7(), B8());
  }

  lemma StepB9()
    requires Inv(B8())
    ensures Steps(B8(), Wait, B9())
  {
    ReapB9();
    CollectTo(B8(), B9());
  }

  lemma ReachB9()
    ensures Inv(B9())
    ensures Reaches(Boot(), [Fork] + ([Fork] + ([Yield] + ([Fork] + ([Exit(7)] + ([Yield] + ([Exit(8)] + ([Wait] + ([Wait] + [])))))))), B9())
  {
    StepA1();
    StepB2();
    StepB3();
    ReachB9From3();
    Three(Boot(), Fork, A1(), Fork, B2(), Yield, B3(), [Fork] + ([Exit(7)] + ([Yield] + ([Exit(8)] + ([Wait] + ([Wait] + []))))), B9());
  }

  lemma ReachB9From3()
    requires Inv(B3())
    ensures Inv(B9()) && Reaches(B3(), [Fork] + ([Exit(7)] + ([Yield] + ([Exit(8)] + ([Wait] + ([Wait] + []))))), B9())
  {
    StepB4();
    StepB5();
    StepB6();
    ReachB9From6();
    Three(B3(), Fork, B4(), Exit(7), B5(), Yield, B6(), [Exit(8)] + ([Wait] + ([Wait] + [])), B9());
  }

  lemma ReachB9From6()
    requires Inv(B6())
    ensures Inv(B9()) && Reaches(B6(), [Exit(8)] + ([Wait] + ([Wait] + [])), B9())
  {
    StepB7();
    StepB8();
    StepB9();
    Three(B6(), Exit(8), B7(), Wait, B8(), Wait, B9(), [], B9());
  }

  /** After this run init has one child, which it forked itself, which is alive, and which `sys_wait` does not wait for. */
  lemma EchildWithOwnChild(es: seq<Event>)
    requires es == [Fork, Fork, Yield, Fork, Exit(7), Yield, Exit(8), Wait, Wait]
    ensures Reaches(Boot(), es, B9())
    ensures var s := B9();
            && Inv(s) && s.cur == INIT && Children(s.table, INIT) == {3} && Live(s.table, 3)
            && s.table[INIT].children == 0 && Step(s, Wait) == s
  {
    ReachB9();
    assert es == [Fork] + ([Fork] + ([Yield] + ([Fork] + ([Exit(7)] + ([Yield] + ([Exit(8)] + ([Wait] + ([Wait] + []))))))));
    OwnChildLeft();
  }

  lemma OwnChildLeft()
    ensures Children(B9().table, INIT) == {3} && Live(B9().table, 3)
  {
  }
}
