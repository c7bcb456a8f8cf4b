/** Who runs after a task gives up the processor, and how long a ready task can be passed over. */
module TaskFairness {
  import opened TaskSpec

  /** In the order from + 1, .., 255, 1, .., from: q does not come after p. */
  predicate NoLater(from: nat, q: nat, p: nat) { q == p || from < q < p || p <= from < q || q < p <= from }

  /** q is ready, and no ready task comes before it in the order that starts after `from`. */
  ghost predicate RunsNext(t: Table, from: nat, q: nat) {
    q in t && t[q].state == Ready && forall p :: p in t && t[p].state == Ready ==> NoLater(from, q, p)
  }

  /** How many slots p is ahead of cur, 0 .. 254, going up and on from 255 to 1. */
  function Ahead(cur: nat, p: nat): int { if p >= cur then p - cur else p - cur + 255 }

  /** Whether the event gives up the processor; a `sys_wait` does when it has a child and nothing to collect. */
  predicate GivesUp(s: Sys, e: Event)
    requires s.cur in s.table
  {
    match e
    case Fork => false
    case Exit(_) => true
    case Wait => s.table[s.cur].children > 0 && s.table[s.cur].queue == []
    case Yield => true
  }

  lemma NearestOf(t: Table, from: nat, p: nat)
    requires Parented(t) && 1 <= from < 256 && p in t && t[p].state == Ready
    ensures var q := NextTask(t, from); q in t && t[q].state == Ready && NoLater(from, q, p)
  {
    NextIsNearest(t, from, p);
  }

  /** A switch goes to the nearest ready task. */
  lemma SwitchNearest(t: Table, clock: nat, adopted: nat, from: nat)
    requires TableInv(t, clock, adopted) && 1 <= from < 256
    ensures RunsNext(t, from, NextTask(t, from))
  {
    var r := ReadyBelow(t, clock, adopted, INIT);
    NearestOf(t, from, r);
    forall p | p in t && t[p].state == Ready
      ensures NoLater(from, NextTask(t, from), p)
    {
      NearestOf(t, from, p);
    }
  }

  /** Every step: the processor changes hands exactly at the events that give it up, and then goes to the nearest
      ready task. */
  lemma StepRunsNext(s: Sys, e: Event)
    requires Inv(s) && Enabled(s, e)
    ensures GivesUp(s, e) ==> RunsNext(Step(s, e).table, s.cur, Step(s, e).cur)
    ensures !GivesUp(s, e) ==> Step(s, e).cur == s.cur
  {
    var t, c := s.table, s.cur;
    match e
    case Fork =>
    case Exit(status) =>
      KillInv(t, c, status, s.clock, s.adopted);
      SwitchNearest(Killed(t, c, status), s.clock, s.adopted + |Orphans(t, c)|, c);
    case Yield =>
      SwitchNearest(t, s.clock, s.adopted, c);
    case Wait =>
      if GivesUp(s, Wait) {
        BlockInv(t, c, s.clock, s.adopted);
        SwitchNearest(Blocked(t, c), s.clock, s.adopted, c);
      }
  }

  /** Nobody but the task itself takes its readiness away. */
  lemma StaysReady(s: Sys, e: Event, p: nat)
    requires Inv(s) && Enabled(s, e) && IsReady(s.table, p) && p != s.cur
    ensures IsReady(Step(s, e).table, p)
  {
    var t, c := s.table, s.cur;
    match e
    case Fork =>
    case Yield =>
    case Exit(status) => KillFacts(t, c, s.clock);
    case Wait =>
      if t[c].children > 0 && t[c].queue != [] {
        ReapHead(t, c);
      }
  }

  /** How many events of the run give up the processor. */
  ghost function GiveUps(s: Sys, es: seq<Event>): nat
    requires Inv(s) && IsRun(s, es)
    decreases |es|
  {
    if es == [] then 0 else
    StepInv(s, es[0]);
    (if GivesUp(s, es[0]) then 1 else 0) + GiveUps(Step(s, es[0]), es[1..])
  }

  lemma PrefixTail(es: seq<Event>, j: nat)
    requires j < |es|
    ensures es[..j + 1][1..] == es[1..][..j] && es[..j + 1][0] == es[0]
  {
  }

  /** A step before the beginning of a run. */
  lemma StepThen(s: Sys, es: seq<Event>, j: nat)
    requires Inv(s) && j < |es| && Enabled(s, es[0]) && Inv(Step(s, es[0])) && IsRun(Step(s, es[0]), es[1..][..j])
    ensures IsRun(s, es[..j + 1]) && Run(s, es[..j + 1]) == Run(Step(s, es[0]), es[1..][..j])
    ensures GiveUps(s, es[..j + 1]) == (if GivesUp(s, es[0]) then 1 else 0) + GiveUps(Step(s, es[0]), es[1..][..j])
  {
    PrefixTail(es, j);
  }

  /** One step of the wait of p: it is chosen, or it stays ready and has fewer slots to wait. */
  lemma WaitShrinks(s: Sys, e: Event, p: nat)
    requires Inv(s) && Enabled(s, e) && p in s.table && s.table[p].state == Ready && p != s.cur
    ensures var s' := Step(s, e); Inv(s') && p in s'.table && s'.table[p].state == Ready
    ensures if GivesUp(s, e) then Ahead(Step(s, e).cur, p) < Ahead(s.cur, p) else Step(s, e).cur == s.cur
  {
    StepInv(s, e);
    StaysReady(s, e, p);
    StepRunsNext(s, e);
    Slots(s, p);
    Slots(Step(s, e), p);
    assert GivesUp(s, e) ==> NoLater(s.cur, Step(s, e).cur, p);
  }

  lemma Slots(s: Sys, p: nat)
    requires Inv(s) && p in s.table
    ensures 1 <= s.cur < 256 && 1 <= p < 256
  {
  }

  lemma NoEvents(s: Sys)
    requires Inv(s)
    ensures IsRun(s, []) && Run(s, []) == s && GiveUps(s, []) == 0
  {
  }

  lemma SomeEvent(s: Sys, es: seq<Event>)
    requires Inv(s) && IsRun(s, es) && GiveUps(s, es) > 0
    ensures es != [] && Enabled(s, es[0]) && Inv(Step(s, es[0])) && IsRun(Step(s, es[0]), es[1..])
    ensures GiveUps(s, es) == (if GivesUp(s, es[0]) then 1 else 0) + GiveUps(Step(s, es[0]), es[1..])
  {
    StepInv(s, es[0]);
  }

  /** Bounded waiting, over every run: a ready task gets the processor within as many give-ups as it is slots ahead of
      the running one, at most 254, whatever forks, deaths and sleeps happen in between. */
  lemma {:induction false} BoundedWaiting(s: Sys, es: seq<Event>, p: nat) returns (i: nat)
    requires Inv(s) && IsRun(s, es) && p in s.table && s.table[p].state == Ready
    requires GiveUps(s, es) >= Ahead(s.cur, p)
    ensures i <= |es| && IsRun(s, es[..i]) && Run(s, es[..i]).cur == p
    ensures GiveUps(s, es[..i]) <= Ahead(s.cur, p) <= 254
    decreases |es|
  {
    Slots(s, p);
    if s.cur == p {
      i := 0;
      NoEvents(s);
      assert es[..0] == [];
    } else {
      SomeEvent(s, es);
      WaitShrinks(s, es[0], p);
      var j := BoundedWaiting(Step(s, es[0]), es[1..], p);
      i := j + 1;
      StepThen(s, es, j);
    }
  }
}
