/** Which threads of Tasks come to run: the blocked ones that can get out again, and how soon a READY
    thread has its turn. */
module TaskLiveness {
  import opened Tasks
  import opened TaskTheorems
  import opened Sequences

  // ---------- runs put together ----------

  lemma {:induction false} Join(s: System, es: seq<Event>, fs: seq<Event>)
    requires Runs(s) && Allowed(s, es) && Runs(After(s, es)) && Allowed(After(s, es), fs)
    ensures Allowed(s, es + fs) && After(s, es + fs) == After(After(s, es), fs)
    decreases |es|
  {
    if es == [] {
      assert es + fs == fs;
    } else {
      StepKeeps(s, es[0]);
      assert (es + fs)[1..] == es[1..] + fs;
      Join(Step(s, es[0]).0, es[1..], fs);
    }
  }

  /** One more step at the end of a run. */
  lemma Extend(s: System, es: seq<Event>, e: Event)
    requires Runs(s) && Allowed(s, es) && Runs(After(s, es)) && Enabled(After(s, es), e)
    ensures Allowed(s, es + [e]) && After(s, es + [e]) == Step(After(s, es), e).0 && Runs(After(s, es + [e]))
  {
    var s' := After(s, es);
    OneStep(s', e);
    Join(s, es, [e]);
  }

  // ---------- threads that are blocked for ever ----------

  /** Threads each of which waits for one of the group, or for the idle thread, which never exits. */
  ghost predicate Stuck(s: System, group: set<int>) {
    forall t :: t in group ==> t in s.waits && (s.waits[t] in group || s.waits[t] == IDLE)
  }

  /** None of them is READY, so none of them can be the next to run. */
  lemma StuckBlocks(s: System, group: set<int>, t: int)
    requires Runs(s) && Stuck(s, group) && t in group
    ensures t in s.threads && s.threads[t].state == WAITING && t != s.running
  {
    assert WaitOk(s, t) && WaitOk(s, s.waits[t]) && StateOk(s, IDLE);
  }

  /** Such threads stay blocked through every run that follows. */
  lemma {:induction false} StuckForever(s: System, es: seq<Event>, group: set<int>)
    requires Runs(s) && Allowed(s, es) && Stuck(s, group)
    ensures Runs(After(s, es)) && Stuck(After(s, es), group)
    ensures forall t :: t in group ==> t in After(s, es).threads && After(s, es).threads[t].state == WAITING
    decreases |es|
  {
    forall t | t in group
      ensures t in s.threads && s.threads[t].state == WAITING && t != s.running
    {
      StuckBlocks(s, group, t);
    }
    if es != [] {
      StepKeeps(s, es[0]);
      assert Stuck(Step(s, es[0]).0, group) by {
        forall t | t in group
          ensures t in Step(s, es[0]).0.waits && Step(s, es[0]).0.waits[t] == s.waits[t]
        {
        }
      }
      StuckForever(Step(s, es[0]).0, es[1..], group);
    }
  }

  // ---------- when a blocked thread can get out ----------

  /** Going from t to the thread it waits for, from that one to the thread it waits for, and so on, one
      comes to a thread that waits for nobody and is neither the idle thread nor `but`. left holds the
      waiting threads not met so far; coming to another one again is going round in a circle. */
  ghost predicate EndsWell(waits: map<int, int>, t: int, left: set<int>, but: int)
    decreases |left|
  {
    if t in waits then t in left && EndsWell(waits, waits[t], left - {t}, but)
    else t != IDLE && t != but
  }

  /** The threads met on a walk that does not end well are stuck. */
  lemma {:induction false} EndsBadly(s: System, t: int, left: set<int>) returns (group: set<int>)
    requires left <= s.waits.Keys && !EndsWell(s.waits, t, left, IDLE)
    requires forall x :: x in s.waits.Keys - left ==> s.waits[x] == t || s.waits[x] in s.waits.Keys - left
    ensures s.waits.Keys - left <= group && Stuck(s, group) && (t in s.waits ==> t in group)
    decreases |left|
  {
    if t in left {
      assert s.waits.Keys - (left - {t}) == s.waits.Keys - left + {t};
      group := EndsBadly(s, s.waits[t], left - {t});
    } else {
      group := s.waits.Keys - left;
    }
  }

  lemma StaysInWait(s: System, e: Event, t: int)
    requires Runs(s) && Enabled(s, e) && t in s.waits && s.waits[t] !in s.exited
    ensures var s' := Step(s, e).0; t in s'.waits && s'.waits[t] == s.waits[t]
  {
    assert WaitOk(s, t) && StateOk(s, s.waits[t]);
  }

  /** A thread waits as long as its target has not exited. */
  lemma {:induction false} StillWaits(s: System, es: seq<Event>, t: int)
    requires Runs(s) && Allowed(s, es) && t in s.waits && s.waits[t] !in After(s, es).exited
    ensures t in After(s, es).waits && After(s, es).waits[t] == s.waits[t]
    decreases |es|
  {
    if es != [] {
      StepKeeps(s, es[0]);
      ExitedStays(s, es, s.waits[t]);
      StaysInWait(s, es[0], t);
      StillWaits(Step(s, es[0]).0, es[1..], t);
    }
  }

  lemma {:induction false} ExitedStays(s: System, es: seq<Event>, u: int)
    requires Runs(s) && Allowed(s, es) && u !in After(s, es).exited
    ensures u !in s.exited
    decreases |es|
  {
    if es != [] {
      StepKeeps(s, es[0]);
      HistoryGrows(s, es[0]);
      ExitedStays(Step(s, es[0]).0, es[1..], u);
    }
  }

  ghost predicate Ready(s: System, t: int) {
    t in s.threads && s.threads[t].state == READY
  }

  lemma ResumeKeepsReady(s: System, u: int)
    requires Runs(s) && s.running in s.waits && Ready(s, u)
    ensures var s' := Step(s, Resume).0; Runs(s') && Ready(s', u) && |s'.waits| < |s.waits|
  {
    StepKeeps(s, Resume);
    TargetIsZombie(s);
    assert (s.waits - {s.running}).Keys == s.waits.Keys - {s.running};
    SmallerMap(s.waits, s.running);
  }

  lemma SmallerMap(m: map<int, int>, k: int)
    requires k in m
    ensures |m - {k}| < |m|
  {
    assert m == (m - {k})[k := m[k]];
  }

  lemma YieldCloser(s: System, u: int)
    requires Runs(s) && s.running !in s.waits && Ready(s, u) && u != IDLE && u != s.running
    ensures var s' := Step(s, Yield).0;
      Runs(s') && Ready(s', u) && s'.waits == s.waits &&
      (s'.running == u || Distance(s'.list, s'.running, u) < Distance(s.list, s.running, u))
  {
    StepKeeps(s, Yield);
    Closer(s.threads, s.list, s.running, u);
  }

  /** Yielding, with every waiter that comes to run let out of its wait, is enough to bring a READY
      thread to run. */
  lemma {:induction false} MakeRun(s: System, u: int) returns (es: seq<Event>)
    requires Runs(s) && Ready(s, u) && u != IDLE
    ensures Allowed(s, es) && Runs(After(s, es)) && After(s, es).running == u
    ensures u in s.waits ==> u in After(s, es).waits
    decreases |s.waits|, if s.running == u then 0 else 1 + Distance(s.list, s.running, u)
  {
    if s.running == u {
      es := [];
    } else if s.running in s.waits {
      ResumeKeepsReady(s, u);
      es := MakeRun(Step(s, Resume).0, u);
      es := [Resume] + es;
    } else {
      YieldCloser(s, u);
      es := MakeRun(Step(s, Yield).0, u);
      es := [Yield] + es;
    }
  }

  /** A READY thread runs and exits, which makes the threads waiting for it READY. */
  lemma ExitRun(s: System, t: int) returns (es: seq<Event>)
    requires Runs(s) && t in s.waits && Ready(s, s.waits[t]) && s.waits[t] != IDLE
    ensures Allowed(s, es) && Runs(After(s, es)) && t in After(s, es).waits && Ready(After(s, es), t)
  {
    var u := s.waits[t];
    es := MakeRun(s, u);
    if u in After(s, es).waits {
      Extend(s, es, Resume);
      es := es + [Resume];
    }
    var s1 := After(s, es);
    assert s1.running == u && u !in s1.waits;
    assert StateOk(s1, u);
    StillWaits(s, es, t);
    Extend(s, es, Exit(0));
    es := es + [Exit(0)];
    assert WaitOk(After(s, es), t);
  }

  lemma {:induction false} Unblock(s: System, t: int, left: set<int>) returns (es: seq<Event>)
    requires Runs(s) && t in s.waits && EndsWell(s.waits, t, left, IDLE)
    ensures Allowed(s, es) && Runs(After(s, es)) && t in After(s, es).waits && Ready(After(s, es), t)
    decreases |left|
  {
    var u := s.waits[t];
    assert WaitOk(s, t) && StateOk(s, u) && WaitOk(s, u);
    if s.threads[u].state == ZOMBIE {
      es := [];
    } else if s.threads[u].state == READY {
      es := ExitRun(s, t);
    } else {
      es := Unblock(s, u, left - {t});
      var s1 := After(s, es);
      assert StateOk(s1, u) && WaitOk(s1, u);
      StillWaits(s, es, t);
      var fs := ExitRun(s1, t);
      Join(s, es, fs);
      es := es + fs;
    }
  }

  /** The run es is possible and ends with t READY. */
  ghost predicate ReadyAfter(s: System, es: seq<Event>, t: int)
    requires Runs(s)
  {
    Allowed(s, es) && Ready(After(s, es), t)
  }

  /** The run es is possible and ends with t running, about to leave sleep_on. */
  ghost predicate BackAfter(s: System, es: seq<Event>, t: int)
    requires Runs(s)
  {
    Allowed(s, es) && After(s, es).running == t && t in After(s, es).waits
  }

  /** A thread inside sleep_on can become READY again, and leave it, if and only if the chain of waits from
      it ends in a thread that waits for nobody and is not the idle thread. */
  lemma GetsOut(s: System, t: int)
    requires Runs(s) && t in s.waits
    ensures (exists es :: ReadyAfter(s, es, t)) <==> EndsWell(s.waits, t, s.waits.Keys, IDLE)
    ensures (exists es :: BackAfter(s, es, t)) <==> EndsWell(s.waits, t, s.waits.Keys, IDLE)
  {
    if EndsWell(s.waits, t, s.waits.Keys, IDLE) {
      var es := Unblock(s, t, s.waits.Keys);
      assert ReadyAfter(s, es, t);
      assert WaitOk(After(s, es), t);
      var fs := MakeRun(After(s, es), t);
      Join(s, es, fs);
      assert BackAfter(s, es + fs, t);
    } else {
      var group := EndsBadly(s, t, s.waits.Keys);
      forall es | Allowed(s, es)
        ensures !ReadyAfter(s, es, t) && !BackAfter(s, es, t)
      {
        StuckForever(s, es, group);
      }
    }
  }

  /** With r waiting for u as well, the walk is the same as before except that it must not end in r. */
  lemma {:induction false} OneMoreWait(waits: map<int, int>, t: int, left: set<int>, r: int, u: int)
    requires r !in waits && left <= waits.Keys
    ensures EndsWell(waits[r := u], t, left, IDLE) <==> EndsWell(waits, t, left, r)
    decreases |left|
  {
    if t in left { OneMoreWait(waits, waits[t], left - {t}, r, u); }
  }

  /** The test to make before sys_task_wait: the caller can be READY again if and only if the chain of
      waits from tid ends, and neither in the caller nor in the idle thread. */
  lemma WaitCanReturn(s: System, tid: int)
    requires Runs(s) && Enabled(s, Wait(tid))
    ensures Runs(Step(s, Wait(tid)).0)
    ensures (exists es :: ReadyAfter(Step(s, Wait(tid)).0, es, s.running)) <==>
      EndsWell(s.waits, tid, s.waits.Keys, s.running)
  {
    var r, s' := s.running, Step(s, Wait(tid)).0;
    StepKeeps(s, Wait(tid));
    assert WaitOk(s, tid) && StateOk(s, tid) && StateOk(s, IDLE);
    if tid in s.threads && s.threads[tid].state != ZOMBIE {
      GetsOut(s', r);
      assert s'.waits.Keys - {r} == s.waits.Keys;
      OneMoreWait(s.waits, tid, s.waits.Keys, r, tid);
    } else {
      assert ReadyAfter(s', [], r);
    }
  }

  // ---------- three ways to be blocked for ever ----------

  /** The run es leads from init_task to s. */
  ghost predicate Reaches(es: seq<Event>, s: System) {
    Allowed(Initial(), es) && After(Initial(), es) == s && Runs(s)
  }

  lemma ReachesNext(es: seq<Event>, s: System, e: Event)
    requires Reaches(es, s) && Runs(s) && Enabled(s, e)
    ensures Reaches(es + [e], Step(s, e).0)
  {
    Extend(Initial(), es, e);
  }

  /** Thread 0 is idle, thread 1 runs and nobody has waited or exited. */
  ghost predicate Two(s: System) {
    s.threads.Keys == {IDLE, 1} && s.list == [IDLE, 1] && s.running == 1 && s.nextTid == 2 &&
    s.waits == map[] && s.exited == map[]
  }

  /** The idle thread creates thread 1 and yields to it. */
  lemma Started() returns (es: seq<Event>, s: System)
    ensures es == [Create, Yield] && Reaches(es, s) && Runs(s) && Two(s)
  {
    s := Initial();
    es := [];
    assert Reaches(es, s);
    CreateThenYield();
    hide *;
    ReachesNext(es, s, Create);
    es, s := es + [Create], Step(s, Create).0;
    ReachesNext(es, s, Yield);
    es, s := es + [Yield], Step(s, Yield).0;
  }

  lemma CreateThenYield()
    ensures var s := Step(Initial(), Create).0;
      Enabled(Initial(), Create) && Runs(s) && Enabled(s, Yield) && Runs(Step(s, Yield).0) && Two(Step(s, Yield).0)
  {
    var s := Initial();
    StepKeeps(s, Create);
    StepKeeps(Step(s, Create).0, Yield);
    assert Round([IDLE, 1], IDLE) == [1];
  }

  lemma WaitBlocks(s: System, tid: int)
    requires Runs(s) && Enabled(s, Wait(tid)) && tid in s.threads && tid !in s.exited
    ensures var s' := Step(s, Wait(tid)).0;
      Runs(s') && s'.exited == s.exited && s'.threads.Keys == s.threads.Keys &&
      s'.waits == s.waits[s.running := tid] && s'.running == Choice(s'.threads, s.list, s.running) &&
      (forall x :: x != s.running ==> (Ready(s', x) <==> Ready(s, x)))
  {
    StepKeeps(s, Wait(tid));
    assert StateOk(s, tid);
  }

  /** One thread waits for itself. */
  lemma SelfWait() returns (es: seq<Event>, s: System)
    ensures es == [Create, Yield, Wait(1)] && Reaches(es, s) && s.waits == map[1 := 1] && Stuck(s, {1})
  {
    hide Step, Reaches, Runs;
    es, s := Started();
    WaitBlocks(s, 1);
    ReachesNext(es, s, Wait(1));
    es, s := es + [Wait(1)], Step(s, Wait(1)).0;
  }

  /** One thread waits for the idle thread. */
  lemma WaitForIdle() returns (es: seq<Event>, s: System)
    ensures es == [Create, Yield, Wait(IDLE)] && Reaches(es, s) && s.waits == map[1 := IDLE] && Stuck(s, {1})
  {
    hide Step, Reaches, Runs;
    es, s := Started();
    WaitBlocks(s, IDLE);
    ReachesNext(es, s, Wait(IDLE));
    es, s := es + [Wait(IDLE)], Step(s, Wait(IDLE)).0;
  }

  /** Two threads wait for each other. */
  lemma TwoWait() returns (es: seq<Event>, s: System)
    ensures es == [Create, Yield, Create, Wait(2), Wait(1)] && Reaches(es, s)
    ensures s.waits == map[1 := 2, 2 := 1] && Stuck(s, {1, 2})
  {
    hide Step, Reaches, Runs, Round, FirstEligible, Choice;
    es, s := Started();
    SecondCreated(s);
    ReachesNext(es, s, Create);
    es, s := es + [Create], Step(s, Create).0;
    WaitBlocks(s, 2);
    ReachesNext(es, s, Wait(2));
    es, s := es + [Wait(2)], Step(s, Wait(2)).0;
    SecondChosen(s.threads);
    WaitBlocks(s, 1);
    ReachesNext(es, s, Wait(1));
    es, s := es + [Wait(1)], Step(s, Wait(1)).0;
  }

  lemma SecondCreated(s: System)
    requires Runs(s) && Two(s)
    ensures Enabled(s, Create) && var s' := Step(s, Create).0;
      Runs(s') && s'.threads.Keys == {IDLE, 1, 2} && s'.list == [IDLE, 1, 2] && s'.running == 1 &&
      s'.waits == map[] && s'.exited == map[] && Ready(s', 2)
  {
    StepKeeps(s, Create);
  }

  lemma SecondChosen(threads: map<int, Thread>)
    requires {1, 2} <= threads.Keys && threads[2].state == READY
    ensures Choice(threads, [IDLE, 1, 2], 1) == 2
  {
    assert Round([IDLE, 1, 2], 1) == [2, IDLE];
  }

  // ---------- turns ----------

  lemma IndexWithout(list: seq<int>, z: int, x: int)
    requires Distinct(list) && x in list && z in list && x != z
    ensures var list' := Without(list, z);
      |list'| == |list| - 1 && x in list' &&
      IndexOf(list', x) == IndexOf(list, x) - if IndexOf(list, x) < IndexOf(list, z) then 0 else 1
  {
    var k, i := IndexOf(list, z), IndexOf(list, x);
    WithoutMembers(list, z);
    WithoutIsCut(list, k);
    var j := if i < k then i else i - 1;
    assert Without(list, z)[j] == x;
    IndexIs(Without(list, z), j);
  }

  /** Taking another thread off the list brings no thread further away. */
  lemma ShorterRound(list: seq<int>, z: int, running: int, t: int)
    requires Distinct(list) && running in list && t in list && z in list && z != running && z != t
    ensures var list' := Without(list, z);
      running in list' && t in list' && Distance(list', running, t) <= Distance(list, running, t)
  {
    IndexWithout(list, z, running);
    IndexWithout(list, z, t);
    hide IndexOf, Without;
  }

  /** A new thread comes last, so it can only come between. */
  lemma LongerRound(list: seq<int>, z: int, running: int, t: int)
    requires Distinct(list) && running in list && t in list && z !in list
    ensures Distance(list + [z], running, t) <= Distance(list, running, t) + 1
  {
    DistinctPlus(list, z);
    IndexIs(list + [z], IndexOf(list, running));
    IndexIs(list + [z], IndexOf(list, t));
  }

  /** The step calls schedule. */
  predicate Switches(s: System, e: Event) {
    e == Yield || e.Exit? || (e.Wait? && e.tid in s.threads && s.threads[e.tid].state != ZOMBIE)
  }

  ghost function SwitchCount(s: System, es: seq<Event>): nat
    requires Runs(s) && Allowed(s, es)
    decreases |es|
  {
    if es == [] then 0 else
    StepKeeps(s, es[0]);
    (if Switches(s, es[0]) then 1 else 0) + SwitchCount(Step(s, es[0]).0, es[1..])
  }

  function CreateCount(es: seq<Event>): nat {
    if es == [] then 0 else (if es[0] == Create then 1 else 0) + CreateCount(es[1..])
  }

  lemma ScheduleCloser(s: System, t: int)
    requires Inv(s) && Ready(s, t) && t != IDLE && t != s.running
    ensures var s' := Schedule(s);
      Ready(s', t) && s'.running in s'.list && t in s'.list &&
      (s'.running == t || Distance(s'.list, s'.running, t) < Distance(s.list, s.running, t))
  {
    Closer(s.threads, s.list, s.running, t);
  }

  lemma WaitCloser(s: System, tid: int, t: int)
    requires Runs(s) && Enabled(s, Wait(tid)) && !Switches(s, Wait(tid)) && Ready(s, t)
    ensures var s' := Step(s, Wait(tid)).0;
      Runs(s') && Ready(s', t) && s'.running == s.running &&
      Distance(s'.list, s.running, t) <= Distance(s.list, s.running, t)
  {
    StepKeeps(s, Wait(tid));
    if tid in s.threads { ShorterRound(s.list, tid, s.running, t); }
  }

  lemma ResumeCloser(s: System, t: int)
    requires Runs(s) && s.running in s.waits && Ready(s, t)
    ensures var s' := Step(s, Resume).0;
      Runs(s') && Ready(s', t) && s'.running == s.running &&
      Distance(s'.list, s.running, t) <= Distance(s.list, s.running, t)
  {
    ResumeKeepsReady(s, t);
    TargetIsZombie(s);
    ShorterRound(s.list, s.waits[s.running], s.running, t);
  }

  /** A READY thread that is not running stays READY, and a step changes its distance in three ways. */
  lemma StepCloser(s: System, e: Event, t: int)
    requires Runs(s) && Enabled(s, e) && Ready(s, t) && t != IDLE && t != s.running
    ensures var s' := Step(s, e).0;
      Runs(s') && Ready(s', t) && (s'.running == t ||
      Distance(s'.list, s'.running, t) + (if Switches(s, e) then 1 else 0) <=
        Distance(s.list, s.running, t) + (if e == Create then 1 else 0))
  {
    hide Distance, Choice, Reaped, StateOk, WaitOk, QueueOk, Awaited;
    StepKeeps(s, e);
    match e {
      case Create => LongerRound(s.list, s.nextTid, s.running, t);
      case Yield => ScheduleCloser(s, t);
      case Exit(code) =>
        ExitKeeps(s, code);
        ScheduleCloser(Exited(s, code), t);
      case Wait(tid) =>
        if Switches(s, e) {
          AsleepKeeps(s, tid);
          ScheduleCloser(Asleep(s, tid), t);
        } else {
          WaitCloser(s, tid, t);
        }
      case Resume => ResumeCloser(s, t);
    }
  }

  lemma RunsLists(s: System, t: int)
    requires Runs(s) && Ready(s, t)
    ensures Distinct(s.list) && s.running in s.list && t in s.list
  {
  }

  /** Whatever the threads do, a READY thread runs before schedule has been called more often than its
      distance from the running thread and the threads created meanwhile. */
  lemma {:induction false} ComesToRun(s: System, es: seq<Event>, t: int) returns (k: nat)
    requires Runs(s) && Allowed(s, es) && Ready(s, t) && t != IDLE
    requires SwitchCount(s, es) >= Distance(s.list, s.running, t) + CreateCount(es)
    ensures k <= |es| && Allowed(s, es[..k]) && After(s, es[..k]).running == t
    decreases |es|
  {
    hide Step, Runs, Distance, Switches;
    RunsLists(s, t);
    if s.running == t {
      k := 0;
    } else {
      RoundMeets(s.list, s.running, t);
      var e, s' := es[0], Step(s, es[0]).0;
      StepCloser(s, e, t);
      if s'.running == t {
        k := 0;
        assert es[..1][1..] == [];
      } else {
        k := ComesToRun(s', es[1..], t);
        assert es[..k + 1][1..] == es[1..][..k];
      }
      k := k + 1;
    }
  }
}
