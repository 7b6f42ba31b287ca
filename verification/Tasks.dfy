/** Threads: the task list, the exit queues and the exit/wait protocol of kernel/task.c, as a state
    machine whose steps run from one switch point of schedule() to the next. A thread is named by its
    tid, which sys_task_create never hands out twice. */
module Tasks {
  import opened Sequences

  const WAITING := -1
  const READY := 1
  const ZOMBIE := 2

  /** tid 0 is task0, the idle thread. */
  const IDLE := 0

  /** A tcb; queue is wq_exit, head first: the threads inside sleep_on for this one. */
  datatype Thread = Thread(state: int, code: int, queue: seq<int>)

  /** threads holds the allocated tcbs and list the task list from g_task_head. The rest is history:
      waits maps a thread inside sleep_on to the thread it waits for, exited records the argument of
      every sys_task_exit, joined the threads a successful wait has returned for, and freed the tcbs
      given to kfree. */
  datatype System = System(
    threads: map<int, Thread>, list: seq<int>, running: int, nextTid: int,
    waits: map<int, int>, exited: map<int, int>, joined: set<int>, freed: set<int>)

  // ---------- the invariant ----------

  /** Every allocated tcb is on the task list exactly once, and only those are; tids grow. */
  ghost predicate Listed(s: System) {
    Distinct(s.list) && (forall t :: t in s.list <==> t in s.threads) &&
    IDLE in s.threads && s.running in s.threads &&
    (forall t :: t in s.threads || t in s.freed || t in s.exited || t in s.joined ==> 0 <= t < s.nextTid) &&
    (forall t :: t in s.joined ==> t in s.threads || t in s.freed)
  }

  /** A zombie is a thread that has exited, with the code it exited with. */
  ghost predicate StateOk(s: System, t: int) {
    t in s.threads ==>
      var th := s.threads[t];
      th.state in {WAITING, READY, ZOMBIE} && t !in s.freed &&
      (th.state == ZOMBIE <==> t in s.exited) && (t in s.exited ==> th.code == s.exited[t]) &&
      (th.state == WAITING ==> t in s.waits)
  }

  /** A blocked thread waits in the queue of its target, which is allocated; it is blocked as long
      as the target lives and ready once the target is a zombie. */
  ghost predicate WaitOk(s: System, t: int) {
    t in s.waits ==>
      var u := s.waits[t];
      t in s.threads && u in s.threads && t != IDLE && t in s.threads[u].queue &&
      s.threads[t].state == if s.threads[u].state == ZOMBIE then READY else WAITING
  }

  /** Only threads waiting for u are queued on it, once each. */
  ghost predicate QueueOk(s: System, u: int) {
    u in s.threads ==>
      Distinct(s.threads[u].queue) &&
      (forall t :: t in s.threads[u].queue ==> t in s.waits && s.waits[t] == u) &&
      (u in s.joined ==> s.threads[u].state == ZOMBIE)
  }

  /** A zombie that was joined stays allocated only while others are still queued on it. */
  ghost predicate Awaited(s: System, u: int) {
    u in s.threads && u in s.joined ==> s.threads[u].queue != []
  }

  ghost predicate Consistent(s: System) {
    Listed(s) && IDLE !in s.exited && (forall t :: t in s.freed ==> t in s.exited) &&
    (forall t :: StateOk(s, t)) && (forall t :: WaitOk(s, t)) && (forall u :: QueueOk(s, u))
  }

  ghost predicate Inv(s: System) {
    Consistent(s) && forall u :: Awaited(s, u)
  }

  /** Between steps the running thread is READY. */
  ghost predicate Runs(s: System) {
    Inv(s) && s.threads[s.running].state == READY
  }

  // ---------- schedule ----------

  /** schedule passes over the idle thread and everything that is not READY. */
  predicate Eligible(threads: map<int, Thread>, t: int) {
    t in threads && t != IDLE && threads[t].state == READY
  }

  function IndexOf(q: seq<int>, t: int): (i: nat)
    requires t in q
    ensures i < |q| && q[i] == t && t !in q[..i]
  {
    if q[0] == t then 0 else 1 + IndexOf(q[1..], t)
  }

  /** The list as schedule walks it: from the thread after the running one round to the one before. */
  function Round(list: seq<int>, running: int): seq<int>
    requires running in list
  {
    var i := IndexOf(list, running);
    list[i + 1..] + list[..i]
  }

  function FirstEligible(threads: map<int, Thread>, q: seq<int>, otherwise: int): int {
    if q == [] then otherwise
    else if Eligible(threads, q[0]) then q[0]
    else FirstEligible(threads, q[1..], otherwise)
  }

  function Choice(threads: map<int, Thread>, list: seq<int>, running: int): int
    requires running in list && running in threads
  {
    FirstEligible(threads, Round(list, running), if threads[running].state == READY then running else IDLE)
  }

  function Schedule(s: System): System
    requires s.running in s.list && s.running in s.threads
  {
    s.(running := Choice(s.threads, s.list, s.running))
  }

  // ---------- the system calls ----------

  datatype Event =
    | Create            // sys_task_create
    | Yield             // sys_task_yield, or a preemption
    | Exit(code: int)   // sys_task_exit up to its switch
    | Wait(tid: int)    // sys_task_wait up to its switch, or to its return when it does not block
    | Resume            // the rest of sleep_on and of sys_task_wait after the switch back

  /** What a step returns to its caller: nothing yet, an error, or the exit code. */
  datatype Outcome = None | Failed | Joined(code: int)

  function Created(s: System): System {
    s.(threads := s.threads[s.nextTid := Thread(READY, 0, [])], list := s.list + [s.nextTid],
       nextTid := s.nextTid + 1)
  }

  /** wake_up(&wq, -1). */
  function Woken(th: map<int, Thread>, q: seq<int>): map<int, Thread> {
    map t | t in th :: if t in q then th[t].(state := READY) else th[t]
  }

  function Exited(s: System, code: int): System
    requires s.running in s.threads
  {
    var r := s.running;
    var woken := Woken(s.threads, s.threads[r].queue);
    s.(threads := woken[r := woken[r].(code := code, state := ZOMBIE)], exited := s.exited[r := code])
  }

  function Asleep(s: System, u: int): System
    requires s.running in s.threads && u in s.threads
  {
    var r := s.running;
    var queued := s.threads[u := s.threads[u].(queue := [r] + s.threads[u].queue)];
    s.(threads := queued[r := queued[r].(state := WAITING)], waits := s.waits[r := u])
  }

  /** The running thread takes itself off the queue of u. */
  function Awake(s: System, u: int): System
    requires u in s.threads
  {
    s.(threads := s.threads[u := s.threads[u].(queue := Without(s.threads[u].queue, s.running))],
       waits := s.waits - {s.running})
  }

  /** The end of sys_task_wait: the last one out takes the zombie off the list and frees it. */
  function Reaped(s: System, u: int): System
    requires u in s.threads
  {
    if s.threads[u].queue == [] then
      s.(threads := s.threads - {u}, list := Without(s.list, u), joined := s.joined + {u}, freed := s.freed + {u})
    else
      s.(joined := s.joined + {u})
  }

  /** What the running thread may do next: inside sleep_on it can only come back from the switch.
      The idle thread neither waits nor exits. */
  predicate Enabled(s: System, e: Event) {
    match e
    case Resume => s.running in s.waits
    case Exit(_) => s.running !in s.waits && s.running != IDLE
    case Wait(_) => s.running !in s.waits && s.running != IDLE
    case _ => s.running !in s.waits
  }

  ghost function Step(s: System, e: Event): (System, Outcome)
    requires Runs(s) && Enabled(s, e)
  {
    match e
    case Create => (Created(s), None)
    case Yield => (Schedule(s), None)
    case Exit(code) => (Schedule(Exited(s, code)), None)
    case Wait(tid) =>
      if tid !in s.threads then (s, Failed)
      else if s.threads[tid].state == ZOMBIE then (Reaped(s, tid), Joined(s.threads[tid].code))
      else (Schedule(Asleep(s, tid)), None)
    case Resume =>
      assert WaitOk(s, s.running);
      var u := s.waits[s.running];
      (Reaped(Awake(s, u), u), Joined(s.threads[u].code))
  }

  // ---------- every step keeps the invariant ----------

  lemma {:induction false} FirstEligibleIs(threads: map<int, Thread>, q: seq<int>, otherwise: int)
    ensures var c := FirstEligible(threads, q, otherwise); c == otherwise || (c in q && Eligible(threads, c))
  {
    if q != [] { FirstEligibleIs(threads, q[1..], otherwise); }
  }

  lemma ScheduleKeeps(s: System)
    requires Inv(s)
    ensures Runs(Schedule(s))
  {
    var r, s' := s.running, Schedule(s);
    FirstEligibleIs(s.threads, Round(s.list, r), if s.threads[r].state == READY then r else IDLE);
    assert StateOk(s, IDLE) && WaitOk(s, IDLE);
    SameThreads(s, s');
  }

  /** Only the choice of the running thread differs. */
  lemma SameThreads(s: System, s': System)
    requires Inv(s) && s' == s.(running := s'.running) && s'.running in s.threads
    ensures Inv(s')
  {
    forall t
      ensures StateOk(s', t) && WaitOk(s', t) && QueueOk(s', t) && Awaited(s', t)
    {
      assert StateOk(s, t) && WaitOk(s, t) && QueueOk(s, t) && Awaited(s, t);
    }
  }

  lemma CreateKeeps(s: System)
    requires Runs(s)
    ensures Runs(Created(s))
  {
    var s' := Created(s);
    assert s.nextTid !in s.list;
    DistinctPlus(s.list, s.nextTid);
    forall t
      ensures StateOk(s', t) && WaitOk(s', t) && QueueOk(s', t) && Awaited(s', t)
    {
      assert StateOk(s, t) && WaitOk(s, t) && QueueOk(s, t) && Awaited(s, t);
    }
  }

  lemma ExitKeeps(s: System, code: int)
    requires Runs(s) && Enabled(s, Exit(code))
    ensures Inv(Exited(s, code))
  {
    var r, s' := s.running, Exited(s, code);
    assert QueueOk(s, r) && StateOk(s, r);
    forall t
      ensures StateOk(s', t) && WaitOk(s', t) && QueueOk(s', t) && Awaited(s', t)
    {
      assert StateOk(s, t) && WaitOk(s, t) && QueueOk(s, t) && Awaited(s, t);
      if t in s.waits {
        assert t in s.threads[r].queue <==> s.waits[t] == r;
        assert WaitOk(s, s.waits[t]);
      }
    }
  }

  lemma AsleepKeeps(s: System, u: int)
    requires Runs(s) && s.running !in s.waits && s.running != IDLE
    requires u in s.threads && s.threads[u].state != ZOMBIE
    ensures Inv(Asleep(s, u))
  {
    var r, s' := s.running, Asleep(s, u);
    assert QueueOk(s, u) && StateOk(s, u);
    forall t
      ensures StateOk(s', t) && WaitOk(s', t) && QueueOk(s', t) && Awaited(s', t)
    {
      assert StateOk(s, t) && WaitOk(s, t) && QueueOk(s, t) && Awaited(s, t);
    }
  }

  /** The end of sys_task_wait on a zombie, whose own queue alone may have run empty. */
  lemma ReapKeeps(s: System, u: int)
    requires Consistent(s) && s.threads[s.running].state == READY
    requires u in s.threads && s.threads[u].state == ZOMBIE && (forall x :: x != u ==> Awaited(s, x))
    ensures Runs(Reaped(s, u))
  {
    var s' := Reaped(s, u);
    assert StateOk(s, u) && QueueOk(s, u) && StateOk(s, IDLE);
    WithoutMembers(s.list, u);
    forall t
      ensures StateOk(s', t) && WaitOk(s', t) && QueueOk(s', t) && Awaited(s', t)
    {
      assert StateOk(s, t) && WaitOk(s, t) && QueueOk(s, t);
      assert t != u ==> Awaited(s, t);
    }
  }

  /** The switch back into sleep_on: the target of the running thread is an allocated zombie. */
  lemma TargetIsZombie(s: System)
    requires Runs(s) && s.running in s.waits
    ensures var u := s.waits[s.running];
      u != s.running && u in s.threads && s.threads[u].state == ZOMBIE && u in s.exited && u !in s.freed &&
      s.threads[u].code == s.exited[u]
  {
    assert WaitOk(s, s.running);
    assert StateOk(s, s.waits[s.running]);
  }

  lemma AwakeKeeps(s: System)
    requires Runs(s) && s.running in s.waits
    ensures var u := s.waits[s.running]; u in s.threads && var s' := Awake(s, u);
      Consistent(s') && s'.threads[s.running].state == READY && s'.threads[u].state == ZOMBIE &&
      forall x :: x != u ==> Awaited(s', x)
  {
    TargetIsZombie(s);
    var r, u := s.running, s.waits[s.running];
    assert QueueOk(s, u) && WaitOk(s, r);
    WithoutMembers(s.threads[u].queue, r);
    var s' := Awake(s, u);
    forall t
      ensures StateOk(s', t) && WaitOk(s', t) && QueueOk(s', t) && (t != u ==> Awaited(s', t))
    {
      assert StateOk(s, t) && WaitOk(s, t) && QueueOk(s, t) && Awaited(s, t);
    }
  }

  /** Safety of one step, at any switch point. */
  lemma StepKeeps(s: System, e: Event)
    requires Runs(s) && Enabled(s, e)
    ensures Runs(Step(s, e).0)
  {
    match e
    case Create => CreateKeeps(s);
    case Yield => ScheduleKeeps(s);
    case Exit(code) =>
      ExitKeeps(s, code);
      ScheduleKeeps(Exited(s, code));
    case Wait(tid) =>
      if tid in s.threads {
        if s.threads[tid].state == ZOMBIE {
          ReapKeeps(s, tid);
        } else {
          AsleepKeeps(s, tid);
          ScheduleKeeps(Asleep(s, tid));
        }
      }
    case Resume =>
      AwakeKeeps(s);
      ReapKeeps(Awake(s, s.waits[s.running]), s.waits[s.running]);
  }
}
