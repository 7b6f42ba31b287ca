/** What the exit/wait protocol and the round-robin choice of Tasks guarantee over whole runs. */
module TaskTheorems {
  import opened Tasks
  import opened Sequences

  // ---------- runs ----------

  /** init_task: the idle thread alone. */
  ghost function Initial(): (s: System)
    ensures Runs(s)
  {
    System(map[IDLE := Thread(READY, 0, [])], [IDLE], IDLE, 1, map[], map[], {}, {})
  }

  /** Each event is one the thread then running may take; the interleaving is otherwise free. */
  ghost predicate Allowed(s: System, es: seq<Event>)
    requires Runs(s)
    decreases |es|
  {
    es != [] ==> Enabled(s, es[0]) && (StepKeeps(s, es[0]); Allowed(Step(s, es[0]).0, es[1..]))
  }

  ghost function After(s: System, es: seq<Event>): System
    requires Runs(s) && Allowed(s, es)
    decreases |es|
  {
    if es == [] then s else (StepKeeps(s, es[0]); After(Step(s, es[0]).0, es[1..]))
  }

  lemma {:induction false} RunKeeps(s: System, es: seq<Event>)
    requires Runs(s) && Allowed(s, es)
    ensures Runs(After(s, es))
    decreases |es|
  {
    if es != [] {
      StepKeeps(s, es[0]);
      RunKeeps(Step(s, es[0]).0, es[1..]);
    }
  }

  /** Splitting a run in two. */
  lemma {:induction false} AfterAppend(s: System, es: seq<Event>, fs: seq<Event>)
    requires Runs(s) && Allowed(s, es + fs)
    ensures Allowed(s, es) && Runs(After(s, es)) && Allowed(After(s, es), fs)
    ensures After(s, es + fs) == After(After(s, es), fs)
    decreases |es|
  {
    if es == [] {
      assert es + fs == fs;
    } else {
      StepKeeps(s, es[0]);
      assert (es + fs)[1..] == es[1..] + fs;
      AfterAppend(Step(s, es[0]).0, es[1..], fs);
    }
  }

  lemma OneStep(s: System, e: Event)
    requires Runs(s) && Enabled(s, e)
    ensures Allowed(s, [e]) && After(s, [e]) == Step(s, e).0 && Runs(Step(s, e).0)
  {
    StepKeeps(s, e);
    var rest: seq<Event> := [];
    assert [e][1..] == rest && [e][0] == e;
    assert Allowed(Step(s, e).0, rest) && After(Step(s, e).0, rest) == Step(s, e).0;
  }

  // ---------- waiters and zombies ----------

  /** In every reachable state: no waiter refers to a freed tcb, and a waiter is READY again exactly when
      its target is a zombie, which then still holds the code it exited with. */
  lemma WaitersSafe(es: seq<Event>, t: int)
    requires Allowed(Initial(), es)
    requires t in After(Initial(), es).waits
    ensures var s := After(Initial(), es); var u := s.waits[t];
      u in s.threads && u !in s.freed && t in s.threads &&
      (s.threads[t].state == READY <==> s.threads[u].state == ZOMBIE) &&
      (s.threads[u].state == ZOMBIE <==> u in s.exited) && (u in s.exited ==> s.threads[u].code == s.exited[u])
  {
    RunKeeps(Initial(), es);
    var s := After(Initial(), es);
    assert WaitOk(s, t) && StateOk(s, s.waits[t]);
  }

  /** A joined thread has been freed exactly when nobody waits for it any more: the last one out reaps. */
  lemma LastOneReaps(es: seq<Event>, u: int)
    requires Allowed(Initial(), es)
    requires u in After(Initial(), es).joined
    ensures var s := After(Initial(), es); u in s.freed <==> forall t :: t in s.waits ==> s.waits[t] != u
  {
    RunKeeps(Initial(), es);
    var s := After(Initial(), es);
    if u in s.freed {
      forall t | t in s.waits
        ensures s.waits[t] != u
      {
        assert WaitOk(s, t) && StateOk(s, u);
      }
    } else {
      assert Awaited(s, u) && QueueOk(s, u);
      var t := s.threads[u].queue[0];
      assert t in s.threads[u].queue;
    }
  }

  /** The step calls kfree(t). */
  ghost predicate Frees(s: System, e: Event, t: int)
    requires Runs(s) && Enabled(s, e)
  {
    t in s.threads && t !in Step(s, e).0.threads
  }

  /** kfree takes a zombie on which nobody but the caller is queued, and nobody is left waiting for it. */
  lemma FreesZombie(s: System, e: Event, t: int)
    requires Runs(s) && Enabled(s, e) && Frees(s, e, t)
    ensures var s' := Step(s, e).0;
      s.threads[t].state == ZOMBIE && t in s.exited && t != s.running && t in s'.freed &&
      (forall w :: w in s.threads[t].queue ==> w == s.running) &&
      (forall w :: w in s'.waits ==> s'.waits[w] != t)
  {
    StepKeeps(s, e);
    var s' := Step(s, e).0;
    assert StateOk(s, t) && QueueOk(s, t);
    if e == Resume {
      TargetIsZombie(s);
      AwakeKeeps(s);
      WithoutMembers(s.threads[s.waits[s.running]].queue, s.running);
    }
    forall w | w in s'.waits
      ensures s'.waits[w] != t
    {
      assert WaitOk(s', w);
    }
  }

  // ---------- what each call comes to ----------

  /** A thread is queued on u exactly while it waits for it. */
  lemma QueuedWait(s: System, u: int, t: int)
    requires Runs(s) && u in s.threads
    ensures t in s.threads[u].queue <==> t in s.waits && s.waits[t] == u
  {
    assert QueueOk(s, u) && WaitOk(s, t);
  }

  /** sys_task_wait fails exactly if there is no such thread; on one that has exited it returns at once with
      the exit code, and frees the tcb exactly if nobody is inside a wait for it; on any other the caller is
      blocked, waiting for it. */
  lemma WaitOutcome(s: System, tid: int)
    requires Runs(s) && Enabled(s, Wait(tid))
    ensures var (s', r) := Step(s, Wait(tid));
      && (r == Failed <==> tid !in s.threads) && (r == Failed ==> s' == s)
      && (r.Joined? <==> tid in s.threads && tid in s.exited)
      && (r.Joined? ==>
           && r == Joined(s.exited[tid]) && tid in s'.joined && s'.running == s.running && s'.waits == s.waits
           && (tid in s'.freed <==> forall t :: t in s.waits ==> s.waits[t] != tid)
           && (tid in s'.freed <==> tid !in s'.threads))
      && (r == None <==> tid in s.threads && tid !in s.exited)
      && (r == None ==>
           && s'.waits == s.waits[s.running := tid] && s'.exited == s.exited
           && s.running in s'.threads && s'.threads[s.running].state == WAITING)
  {
    StepKeeps(s, Wait(tid));
    assert StateOk(s, tid);
    if tid in s.threads {
      var q := s.threads[tid].queue;
      forall t | t in s.waits
        ensures t in q <==> s.waits[t] == tid
      {
        QueuedWait(s, tid, t);
      }
      if q != [] { QueuedWait(s, tid, q[0]); }
    }
  }

  /** The way back out of a blocked wait always succeeds, with the code of the thread waited for, which is
      freed exactly if nobody else is inside a wait for it. */
  lemma ResumeOutcome(s: System)
    requires Runs(s) && Enabled(s, Resume)
    ensures var (s', r) := Step(s, Resume); var u := s.waits[s.running];
      && u in s.exited && r == Joined(s.exited[u]) && u in s'.joined
      && s'.running == s.running && s'.waits == s.waits - {s.running}
      && (u in s'.freed <==> forall t :: t in s.waits && t != s.running ==> s.waits[t] != u)
      && (u in s'.freed <==> u !in s'.threads)
  {
    TargetIsZombie(s);
    StepKeeps(s, Resume);
    var u := s.waits[s.running];
    var q := s.threads[u].queue;
    assert QueueOk(s, u);
    WithoutMembers(q, s.running);
    forall t | t in s.waits
      ensures t in q <==> s.waits[t] == u
    {
      QueuedWait(s, u, t);
    }
    var rest := Without(q, s.running);
    if rest != [] { assert rest[0] in rest; QueuedWait(s, u, rest[0]); }
  }

  /** sys_task_exit makes the caller a zombie with the code given, for good, and wakes exactly the threads
      waiting for it. */
  lemma ExitOutcome(s: System, code: int)
    requires Runs(s) && Enabled(s, Exit(code))
    ensures var (s', r) := Step(s, Exit(code));
      && r == None && s.running in s'.threads && s'.threads[s.running].state == ZOMBIE
      && s'.threads[s.running].code == code && s'.exited == s.exited[s.running := code]
      && s'.threads.Keys == s.threads.Keys && s'.waits == s.waits
      && forall t :: t in s.threads && t != s.running ==>
           s'.threads[t].state ==
             if t in s.waits && s.waits[t] == s.running then READY else s.threads[t].state
  {
    StepKeeps(s, Exit(code));
    forall t
      ensures t in s.threads[s.running].queue <==> t in s.waits && s.waits[t] == s.running
    {
      QueuedWait(s, s.running, t);
    }
  }

  /** sys_task_create appends a READY thread with the next tid and an empty exit queue, and the caller goes
      on. */
  lemma CreateOutcome(s: System)
    requires Runs(s) && s.running !in s.waits
    ensures var s' := Step(s, Create).0;
      && s'.running == s.running && s.nextTid !in s.threads && s.nextTid !in s.freed
      && s'.list == s.list + [s.nextTid] && s'.nextTid == s.nextTid + 1
      && s'.threads.Keys == s.threads.Keys + {s.nextTid} && s'.threads[s.nextTid] == Thread(READY, 0, [])
      && (forall t :: t in s.threads ==> s'.threads[t] == s.threads[t]) && s'.waits == s.waits
  {
    assert Listed(s) && StateOk(s, s.nextTid);
  }

  /** What one step does to the histories. */
  lemma HistoryGrows(s: System, e: Event)
    requires Runs(s) && Enabled(s, e)
    ensures var s' := Step(s, e).0;
      (forall t :: t in s.freed ==> t in s'.freed) &&
      (forall t :: t in s.exited ==> t in s'.exited && s'.exited[t] == s.exited[t]) &&
      (forall t :: t in s'.exited && t !in s.exited ==> t == s.running && e == Exit(s'.exited[t]))
  {
    assert StateOk(s, s.running);
  }

  ghost function FreeCount(s: System, es: seq<Event>, t: int): nat
    requires Runs(s) && Allowed(s, es)
    decreases |es|
  {
    if es == [] then 0 else
    StepKeeps(s, es[0]);
    (if Frees(s, es[0], t) then 1 else 0) + FreeCount(Step(s, es[0]).0, es[1..], t)
  }

  /** Over any run a tcb is given to kfree at most once, and never again once it has been freed. */
  lemma {:induction false} FreedOnce(s: System, es: seq<Event>, t: int)
    requires Runs(s) && Allowed(s, es)
    ensures FreeCount(s, es, t) <= (if t in s.freed then 0 else 1)
    decreases |es|
  {
    if es != [] {
      var e := es[0];
      StepKeeps(s, e);
      HistoryGrows(s, e);
      if Frees(s, e, t) { FreesZombie(s, e, t); }
      assert StateOk(s, t);
      FreedOnce(Step(s, e).0, es[1..], t);
    }
  }

  // ---------- exit codes ----------

  /** The thread a step asks about. */
  ghost function Target(s: System, e: Event): int
    requires Runs(s) && Enabled(s, e)
  {
    if e.Wait? then e.tid else if e.Resume? then s.waits[s.running] else s.running
  }

  lemma JoinedCode(s: System, e: Event)
    requires Runs(s) && Enabled(s, e) && Step(s, e).1.Joined?
    ensures var u := Target(s, e); u in s.exited && Step(s, e).1 == Joined(s.exited[u])
  {
    assert StateOk(s, Target(s, e));
    if e == Resume { TargetIsZombie(s); }
  }

  /** Thread u called sys_task_exit(code) at step k of the run. */
  ghost predicate ExitsAt(es: seq<Event>, k: nat, u: int, code: int)
    requires Allowed(Initial(), es)
  {
    k < |es| && es[k] == Exit(code) &&
    (assert es == es[..k] + es[k..]; AfterAppend(Initial(), es[..k], es[k..]);
     After(Initial(), es[..k]).running == u)
  }

  /** The recorded code of a thread is the argument of the one sys_task_exit it made. */
  lemma {:induction false} CodeWasPassed(es: seq<Event>, u: int) returns (k: nat)
    requires Allowed(Initial(), es) && u in After(Initial(), es).exited
    ensures ExitsAt(es, k, u, After(Initial(), es).exited[u])
    decreases |es|
  {
    assert es != [];
    hide Step, Runs;
    var n := |es| - 1;
    assert es == es[..n] + es[n..];
    AfterAppend(Initial(), es[..n], es[n..]);
    var s, e := After(Initial(), es[..n]), es[n];
    assert es[n..] == [e];
    OneStep(s, e);
    HistoryGrows(s, e);
    if u in s.exited {
      k := CodeWasPassed(es[..n], u);
      assert es[..n][..k] == es[..k];
    } else {
      k := n;
    }
  }

  /** Every successful wait returns the code the thread it waited for passed to sys_task_exit. */
  lemma WaitReturnsCode(es: seq<Event>, e: Event) returns (k: nat)
    requires Allowed(Initial(), es) && Enabled(After(Initial(), es), e)
    requires Runs(After(Initial(), es)) && Step(After(Initial(), es), e).1.Joined?
    ensures var s := After(Initial(), es); ExitsAt(es, k, Target(s, e), Step(s, e).1.code)
  {
    JoinedCode(After(Initial(), es), e);
    k := CodeWasPassed(es, Target(After(Initial(), es), e));
  }

  // ---------- round robin ----------

  /** How many links schedule follows from the running thread to t, wrapping at the end of the list. */
  ghost function Distance(list: seq<int>, running: int, t: int): (d: nat)
    requires running in list && t in list
    ensures d < |list|
  {
    var i, j := IndexOf(list, running), IndexOf(list, t);
    if j >= i then j - i else j + |list| - i
  }

  lemma IndexIs(list: seq<int>, i: nat)
    requires Distinct(list) && i < |list|
    ensures IndexOf(list, list[i]) == i
  {
  }

  /** The thread k + 1 links on is at distance k + 1, and every other thread is met on the round. */
  lemma RoundAt(list: seq<int>, running: int, k: nat)
    requires Distinct(list) && running in list && k < |list| - 1
    ensures |Round(list, running)| == |list| - 1
    ensures var x := Round(list, running)[k];
      x in list && x != running && Distance(list, running, x) == k + 1
  {
    var i, n := IndexOf(list, running), |list|;
    IndexIs(list, if i + 1 + k < n then i + 1 + k else i + 1 + k - n);
  }

  lemma RoundMeets(list: seq<int>, running: int, x: int)
    requires Distinct(list) && running in list && x in list && x != running
    ensures 0 < Distance(list, running, x) && |Round(list, running)| == |list| - 1
    ensures Round(list, running)[Distance(list, running, x) - 1] == x
  {
    var i, j, n := IndexOf(list, running), IndexOf(list, x), |list|;
    var q := Round(list, running);
    if j > i {
      assert q[j - i - 1] == list[i + 1..][j - i - 1] == list[j];
    } else {
      assert q[n - i - 1 + j] == list[..i][j] == list[j];
    }
  }

  /** Position of the first eligible thread of q, or its length. */
  lemma {:induction false} FirstIs(threads: map<int, Thread>, q: seq<int>, otherwise: int) returns (k: nat)
    ensures k <= |q| && forall j :: 0 <= j < k ==> !Eligible(threads, q[j])
    ensures k < |q| ==> FirstEligible(threads, q, otherwise) == q[k] && Eligible(threads, q[k])
    ensures k == |q| ==> FirstEligible(threads, q, otherwise) == otherwise
  {
    if q == [] || Eligible(threads, q[0]) {
      k := 0;
    } else {
      k := FirstIs(threads, q[1..], otherwise);
      k := k + 1;
      forall j | 0 <= j < k
        ensures !Eligible(threads, q[j])
      {
        if j > 0 { assert q[j] == q[1..][j - 1]; }
      }
    }
  }

  ghost predicate OthersIdle(threads: map<int, Thread>, list: seq<int>, running: int) {
    forall x :: x in list && x != running ==> !Eligible(threads, x)
  }

  /** schedule picks the nearest READY thread other than the idle one; only when there is none does it
      stay with a READY running thread, and only when that is not READY either does it fall back to task0. */
  lemma ChoiceIsNearest(threads: map<int, Thread>, list: seq<int>, running: int)
    requires Distinct(list) && running in list && running in threads
    ensures var c := Choice(threads, list, running);
      if OthersIdle(threads, list, running) then
        c == if threads[running].state == READY then running else IDLE
      else
        c in list && c != running && Eligible(threads, c) &&
        forall x :: x in list && x != running && Eligible(threads, x) ==>
          Distance(list, running, c) <= Distance(list, running, x)
  {
    var q, c := Round(list, running), Choice(threads, list, running);
    var k := FirstIs(threads, q, if threads[running].state == READY then running else IDLE);
    forall x | x in list && x != running && Eligible(threads, x)
      ensures k < |q| && k + 1 <= Distance(list, running, x)
    {
      RoundMeets(list, running, x);
    }
    if k < |list| - 1 {
      RoundAt(list, running, k);
    } else if |list| > 1 {
      RoundAt(list, running, 0);
    }
  }

  /** After a yield, an exit and a wait that blocks, the nearest READY thread other than the idle one runs;
      without one a caller that is still READY goes on, and otherwise the idle thread runs. */
  lemma SwitchesToNearest(s: System, e: Event)
    requires Runs(s) && Enabled(s, e)
    requires e == Yield || e.Exit? || (e.Wait? && e.tid in s.threads && e.tid !in s.exited)
    ensures var s' := Step(s, e).0;
      && s'.list == s.list && s.running in s'.threads
      && if OthersIdle(s'.threads, s.list, s.running) then
           s'.running == if e == Yield then s.running else IDLE
         else
           s'.running in s.list && s'.running != s.running && Eligible(s'.threads, s'.running) &&
           forall x :: x in s.list && x != s.running && Eligible(s'.threads, x) ==>
             Distance(s.list, s.running, s'.running) <= Distance(s.list, s.running, x)
  {
    StepKeeps(s, e);
    var s' := Step(s, e).0;
    assert e.Wait? ==> StateOk(s, e.tid);
    ChoiceIsNearest(s'.threads, s.list, s.running);
  }

  /** One call of schedule brings a READY thread closer, if it does not pick it. */
  lemma Closer(threads: map<int, Thread>, list: seq<int>, running: int, t: int)
    requires Distinct(list) && running in list && running in threads
    requires t in list && t != running && Eligible(threads, t)
    ensures var c := Choice(threads, list, running);
      c in list && (c == t || Distance(list, c, t) < Distance(list, running, t))
  {
    ChoiceIsNearest(threads, list, running);
    var c := Choice(threads, list, running);
    RoundMeets(list, running, t);
    RoundMeets(list, running, c);
    var d := Distance(list, running, c);
    assert IndexOf(list, c) != IndexOf(list, running);
  }

  /** Every thread of the list has a tcb in every situation. */
  ghost predicate Covers(situations: seq<map<int, Thread>>, list: seq<int>) {
    forall i, x :: 0 <= i < |situations| && x in list ==> x in situations[i]
  }

  /** The thread running after schedule has been called once in each of the given situations. */
  ghost function Turns(situations: seq<map<int, Thread>>, list: seq<int>, running: int): int
    requires IDLE in list && running in list && Covers(situations, list)
    decreases |situations|
  {
    if situations == [] then running else
    FirstEligibleIs(situations[0], Round(list, running),
                    if situations[0][running].state == READY then running else IDLE);
    Turns(situations[1..], list, Choice(situations[0], list, running))
  }

  /** With a fixed list, a thread that stays READY runs within its distance, whatever the others do. */
  lemma {:induction false} RunsWithinDistance(situations: seq<map<int, Thread>>, list: seq<int>, running: int, t: int)
    returns (k: nat)
    requires Distinct(list) && IDLE in list && running in list && t in list
    requires Covers(situations, list) && forall i :: 0 <= i < |situations| ==> Eligible(situations[i], t)
    requires |situations| >= Distance(list, running, t)
    ensures k <= Distance(list, running, t) && Turns(situations[..k], list, running) == t
    decreases |situations|
  {
    if running == t {
      k := 0;
    } else {
      RoundMeets(list, running, t);
      var m := situations[0];
      Closer(m, list, running, t);
      var c := Choice(m, list, running);
      if c == t {
        k := 1;
        assert situations[..1][1..] == [];
      } else {
        k := RunsWithinDistance(situations[1..], list, c, t);
        assert situations[..k + 1][1..] == situations[1..][..k];
        k := k + 1;
      }
    }
  }
}
