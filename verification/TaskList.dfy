/** kernel/task.c on its own data: tcbs and wait nodes linked through their next fields. Each method is
    one piece of the C code, proved to do what the corresponding step of Tasks says. */
module TaskList {
  import opened Words
  import opened Tasks
  import opened TaskTheorems
  import opened Sequences

  class WaitQueue {
    var tsk: Tcb
    var next: WaitQueue?

    constructor (tsk: Tcb, next: WaitQueue?)
      ensures this.tsk == tsk && this.next == next
    {
      this.tsk, this.next := tsk, next;
    }

    ghost function Fields(): Node
      reads this
    {
      Node(tsk, next)
    }
  }

  class Tcb {
    var tid: int
    var state: int
    var code_exit: int
    var wq_exit: WaitQueue?
    var next: Tcb?

    constructor (tid: int)
      ensures Fields() == Record(tid, READY, 0, null, null)
    {
      this.tid, state, code_exit, wq_exit, next := tid, READY, 0, null, null;
    }

    ghost function Fields(): Record
      reads this
    {
      Record(tid, state, code_exit, wq_exit, next)
    }
  }

  datatype Node = Node(tsk: Tcb, next: WaitQueue?)
  datatype Record = Record(tid: int, state: int, code: int, wq: WaitQueue?, next: Tcb?)

  /** What a thread inside sleep_on keeps on its kernel stack: the thread it waits for and its own node. */
  datatype Frame = Frame(tsk: Tcb, wait: WaitQueue)

  type Tcbs = map<int, Tcb>
  type Frames = map<int, Frame>

  /** The kernel's objects and what their fields hold. */
  datatype View = View(tcb: Tcbs, frames: Frames, records: map<int, Record>, nodes: map<int, Node>)

  /** The node at the head of q, and the tcb at the head of l. */
  ghost function HeadNode(frames: Frames, q: seq<int>): WaitQueue? {
    if q != [] && q[0] in frames then frames[q[0]].wait else null
  }

  ghost function HeadTcb(tcb: Tcbs, l: seq<int>): Tcb? {
    if l != [] && l[0] in tcb then tcb[l[0]] else null
  }

  /** The rest of the queue after t. */
  function Behind(q: seq<int>, t: int): seq<int> {
    if q == [] then [] else if q[0] == t then q[1..] else Behind(q[1..], t)
  }

  /** The tcb of t holds its state, its code and the head of its queue, and leads to the rest of the list. */
  ghost predicate TcbOk(v: View, s: System, t: int) {
    t in s.threads ==>
      t in v.records &&
      v.records[t] == Record(t, s.threads[t].state, s.threads[t].code, HeadNode(v.frames, s.threads[t].queue),
                             HeadTcb(v.tcb, Behind(s.list, t)))
  }

  /** The node of a waiting thread names it, and leads to the rest of the queue it is in. */
  ghost predicate NodeOk(v: View, s: System, t: int) {
    t in s.waits ==>
      t in v.frames && t in v.nodes && t in v.tcb && s.waits[t] in v.tcb && s.waits[t] in s.threads &&
      v.frames[t].tsk == v.tcb[s.waits[t]] &&
      v.nodes[t] == Node(v.tcb[t], HeadNode(v.frames, Behind(s.threads[s.waits[t]].queue, t)))
  }

  /** The objects hold the system s. */
  ghost predicate Represents(v: View, s: System) {
    v.tcb.Keys == s.threads.Keys && v.records.Keys == s.threads.Keys &&
    v.frames.Keys == s.waits.Keys && v.nodes.Keys == s.waits.Keys &&
    (forall t :: TcbOk(v, s, t)) && (forall t :: NodeOk(v, s, t))
  }

  ghost function Nodes(v: View): set<WaitQueue> {
    set t | t in v.frames :: v.frames[t].wait
  }

  /** v is what the objects hold. */
  ghost predicate Mirrors(v: View)
    reads v.tcb.Values, Nodes(v)
  {
    v.tcb.Keys == v.records.Keys && v.frames.Keys == v.nodes.Keys &&
    (forall t :: t in v.tcb ==> v.tcb[t].Fields() == v.records[t] && v.records[t].tid == t) &&
    (forall t :: t in v.frames ==> v.frames[t].wait.Fields() == v.nodes[t])
  }

  /** The kernel's variables and the objects hold the system s. */
  ghost predicate Root(frames: Frames, task0: Tcb, nextTid: int, head: Tcb?, v: View, s: System) {
    frames == v.frames && Represents(v, s) && IDLE in v.tcb && task0 == v.tcb[IDLE] &&
    nextTid == s.nextTid && head == HeadTcb(v.tcb, s.list)
  }

  // ---------- what single stores do to the representation ----------

  lemma StateStored(v: View, s: System, t: int, x: int)
    requires Represents(v, s) && t in s.threads
    ensures Represents(v.(records := v.records[t := v.records[t].(state := x)]),
                       s.(threads := s.threads[t := s.threads[t].(state := x)]))
  {
    var v' := v.(records := v.records[t := v.records[t].(state := x)]);
    var s' := s.(threads := s.threads[t := s.threads[t].(state := x)]);
    forall y
      ensures TcbOk(v', s', y) && NodeOk(v', s', y)
    {
      assert TcbOk(v, s, y) && NodeOk(v, s, y) && TcbOk(v, s, t);
    }
  }

  lemma CodeStored(v: View, s: System, t: int, x: int)
    requires Represents(v, s) && t in s.threads
    ensures Represents(v.(records := v.records[t := v.records[t].(code := x)]),
                       s.(threads := s.threads[t := s.threads[t].(code := x)]))
  {
    var v' := v.(records := v.records[t := v.records[t].(code := x)]);
    var s' := s.(threads := s.threads[t := s.threads[t].(code := x)]);
    forall y
      ensures TcbOk(v', s', y) && NodeOk(v', s', y)
    {
      assert TcbOk(v, s, y) && NodeOk(v, s, y) && TcbOk(v, s, t);
    }
  }

  /** The histories are not stored. */
  lemma HistoryStored(v: View, s: System, s': System)
    requires Represents(v, s)
    requires s' == s.(exited := s'.exited, joined := s'.joined, freed := s'.freed, running := s'.running)
    ensures Represents(v, s')
  {
    forall y
      ensures TcbOk(v, s', y) && NodeOk(v, s', y)
    {
      assert TcbOk(v, s, y) && NodeOk(v, s, y);
    }
  }

  // ---------- positions ----------

  /** The first occurrence. */
  lemma {:induction false} BehindAt(q: seq<int>, i: nat)
    requires Distinct(q) && i < |q|
    ensures Behind(q, q[i]) == q[i + 1..] && Without(q, q[i]) == q[..i] + q[i + 1..]
  {
    if i > 0 {
      BehindAt(q[1..], i - 1);
      assert q[1..][i - 1] == q[i] && q[1..][i..] == q[i + 1..] && q[..i] == [q[0]] + q[1..][..i - 1];
    }
  }

  /** The tcb at position k of the list. */
  lemma TcbAt(v: View, s: System, k: nat)
    requires Represents(v, s) && Listed(s) && k < |s.list|
    ensures var t := s.list[k];
      t in v.tcb && t in v.records && HeadTcb(v.tcb, s.list[k..]) == v.tcb[t] &&
      v.records[t].tid == t && v.records[t].next == HeadTcb(v.tcb, s.list[k + 1..])
  {
    BehindAt(s.list, k);
    assert s.list[k] in s.list;
    assert TcbOk(v, s, s.list[k]);
  }

  lemma {:induction false} FirstOtherwise(threads: map<int, Thread>, q: seq<int>, a: int, b: int)
    requires a !in q
    ensures FirstEligible(threads, q, b) ==
      if FirstEligible(threads, q, a) == a then b else FirstEligible(threads, q, a)
  {
    if q != [] { FirstOtherwise(threads, q[1..], a, b); }
  }

  lemma ChoiceFrom(threads: map<int, Thread>, list: seq<int>, running: int)
    requires Distinct(list) && running in list && running in threads
    ensures var t := FirstEligible(threads, Round(list, running), running);
      Choice(threads, list, running) ==
      if t != running then t else if threads[running].state == READY then running else IDLE
  {
    var q := Round(list, running);
    assert running !in q;
    FirstOtherwise(threads, q, running, IDLE);
  }

  /** Behind a thread once t has been added at the end. */
  lemma {:induction false} BehindPlus(q: seq<int>, t: int, x: int)
    requires x in q
    ensures Behind(q + [t], x) == Behind(q, x) + [t]
  {
    if q[0] == x {
      assert (q + [t])[1..] == q[1..] + [t];
    } else {
      assert (q + [t])[1..] == q[1..] + [t];
      BehindPlus(q[1..], t, x);
    }
  }

  /** q->next = c at the end of the list, where c is the tcb of the new thread. */
  ghost function WithTcb(v: View, a: System, c: Tcb): View
    requires a.list != [] && a.list[|a.list| - 1] in v.records
  {
    var last, t := a.list[|a.list| - 1], a.nextTid;
    v.(tcb := v.tcb[t := c],
       records := v.records[last := v.records[last].(next := c)][t := Record(t, READY, 0, null, null)])
  }

  lemma TcbAdded(v: View, a: System, c: Tcb)
    requires Represents(v, a) && Inv(a)
    ensures a.list != [] && a.list[|a.list| - 1] in v.records
    ensures Represents(WithTcb(v, a, c), Created(a))
  {
    assert IDLE in a.list;
    var t, a' := a.nextTid, Created(a);
    var last := a.list[|a.list| - 1];
    assert last in a.list && t !in a.list;
    var v' := WithTcb(v, a, c);
    forall x
      ensures TcbOk(v', a', x)
    {
      AddedRecord(v, a, c, x);
    }
    forall x
      ensures NodeOk(v', a', x)
    {
      assert NodeOk(v, a, x) && WaitOk(a, x);
    }
  }

  /** Where a thread leads once t is the last of the list. */
  lemma NextPlus(tcb: Tcbs, list: seq<int>, t: int, c: Tcb, x: int)
    requires Distinct(list) && x in list && t !in list && (forall y :: y in list ==> y in tcb)
    ensures HeadTcb(tcb[t := c], Behind(list + [t], x)) ==
      if x == list[|list| - 1] then c else HeadTcb(tcb, Behind(list, x))
  {
    var i := IndexOf(list, x);
    BehindPlus(list, t, x);
    BehindAt(list, i);
    if i + 1 < |list| {
      assert list[i + 1] in list && Behind(list, x)[0] == list[i + 1];
      assert x != list[|list| - 1];
    }
  }

  lemma AddedRecord(v: View, a: System, c: Tcb, x: int)
    requires Represents(v, a) && Listed(a) && a.list != [] && a.list[|a.list| - 1] in v.records
    ensures TcbOk(WithTcb(v, a, c), Created(a), x)
  {
    assert TcbOk(v, a, x);
    var t, n := a.nextTid, |a.list|;
    assert t !in a.list;
    if x in a.threads {
      NextPlus(v.tcb, a.list, t, c, x);
      hide Behind, HeadTcb, HeadNode;
    } else if x == t {
      DistinctPlus(a.list, t);
      BehindAt(a.list + [t], n);
    }
  }

  lemma HeadPlus(tcb: Tcbs, tcb': Tcbs, list: seq<int>, t: int)
    requires list != [] && list[0] in tcb && t in tcb' && t !in tcb && tcb' == tcb[t := tcb'[t]]
    ensures HeadTcb(tcb', list + [t]) == HeadTcb(tcb, list)
  {
  }

  lemma {:induction false} BehindIn(q: seq<int>, t: int)
    ensures forall x :: x in Behind(q, t) ==> x in q
  {
    if q != [] { BehindIn(q[1..], t); }
  }

  /** Pushing r onto the queue of u: the node of r leads to the rest. */
  ghost function Pushed(a: System, r: int, u: int): System
    requires u in a.threads
  {
    a.(threads := a.threads[u := a.threads[u].(queue := [r] + a.threads[u].queue)], waits := a.waits[r := u])
  }

  ghost function WithNode(v: View, r: int, u: int, wait: WaitQueue): View
    requires r in v.tcb && u in v.tcb && u in v.records
  {
    v.(frames := v.frames[r := Frame(v.tcb[u], wait)],
       nodes := v.nodes[r := Node(v.tcb[r], v.records[u].wq)],
       records := v.records[u := v.records[u].(wq := wait)])
  }

  /** The part of the invariant a push relies on. */
  ghost predicate Pushable(a: System, r: int, u: int) {
    r in a.threads && u in a.threads && r !in a.waits &&
    forall x :: x in a.threads ==> r !in a.threads[x].queue
  }

  lemma CanPush(a: System, u: int)
    requires Inv(a) && u in a.threads && a.running !in a.waits
    ensures Pushable(a, a.running, u)
  {
    forall x | x in a.threads
      ensures a.running !in a.threads[x].queue
    {
      assert QueueOk(a, x);
    }
  }

  lemma HeadKept(frames: Frames, r: int, f: Frame, q: seq<int>)
    requires r !in q
    ensures HeadNode(frames[r := f], q) == HeadNode(frames, q)
  {
  }

  lemma NodePushed(v: View, a: System, r: int, u: int, wait: WaitQueue)
    requires Represents(v, a) && Pushable(a, r, u)
    ensures Represents(WithNode(v, r, u, wait), Pushed(a, r, u))
  {
    var v', a' := WithNode(v, r, u, wait), Pushed(a, r, u);
    assert TcbOk(v, a, u);
    var q := [r] + a.threads[u].queue;
    assert q[1..] == a.threads[u].queue;
    HeadKept(v.frames, r, v'.frames[r], a.threads[u].queue);
    forall x
      ensures TcbOk(v', a', x)
    {
      assert TcbOk(v, a, x);
      if x in a.threads { HeadKept(v.frames, r, v'.frames[r], a.threads[x].queue); }
    }
    forall x
      ensures NodeOk(v', a', x)
    {
      assert NodeOk(v, a, x);
      if x in a.waits && a.waits[x] in a.threads {
        var w := a.waits[x];
        assert w in a.threads && r !in a.threads[w].queue;
        var rest := Behind(a.threads[w].queue, x);
        BehindIn(a.threads[w].queue, x);
        HeadKept(v.frames, r, v'.frames[r], rest);
      }
    }
  }

  /** The system once thread t is in state x. */
  ghost function InState(a: System, t: int, x: int): System
    requires t in a.threads
  {
    a.(threads := a.threads[t := a.threads[t].(state := x)])
  }

  /** q is the exit queue of u, as the invariant has it. */
  ghost predicate QueueIs(a: System, q: seq<int>, u: int) {
    u in a.threads && a.threads[u].queue == q && Distinct(q) &&
    forall t :: t in q ==> t in a.waits && a.waits[t] == u && t in a.threads
  }

  lemma QueueOf(a: System, u: int)
    requires Inv(a) && u in a.threads
    ensures QueueIs(a, a.threads[u].queue, u)
  {
    assert QueueOk(a, u);
    forall t | t in a.threads[u].queue
      ensures t in a.threads
    {
      assert WaitOk(a, t);
    }
  }

  /** The node at position k of a queue. */
  lemma NodeAt(v: View, a: System, q: seq<int>, u: int, k: nat)
    requires Represents(v, a) && QueueIs(a, q, u) && k < |q|
    ensures q[k] in v.frames && q[k] in v.tcb && q[k] in v.nodes && q[k] in a.threads
    ensures HeadNode(v.frames, q[k..]) == v.frames[q[k]].wait
    ensures v.nodes[q[k]] == Node(v.tcb[q[k]], HeadNode(v.frames, q[k + 1..]))
  {
    assert NodeOk(v, a, q[k]);
    BehindAt(q, k);
  }

  lemma StillQueue(a: System, q: seq<int>, u: int, t: int)
    requires QueueIs(a, q, u) && t in a.threads
    ensures QueueIs(InState(a, t, READY), q, u)
  {
  }


  // ---------- taking a node off a queue ----------

  /** Taking position i out of q: what lies behind position k, as far as its head goes. */
  lemma WithoutBehind(q: seq<int>, i: nat, k: nat)
    requires Distinct(q) && i < |q| && k < |q| && k != i
    ensures var l, b := Without(q, q[i]), Behind(Without(q, q[i]), q[k]);
      q[i] !in l && Distinct(l) && q[k] in l &&
      if k + 1 == i then b == q[i + 1..]
      else (b == [] <==> k + 1 == |q|) && (b != [] ==> b[0] == q[k + 1])
  {
    BehindAt(q, i);
    WithoutMembers(q, q[i]);
    var l := Without(q, q[i]);
    var j := if k < i then k else k - 1;
    assert l[j] == q[k];
    BehindAt(l, j);
  }

  /** Position i of the queue of u is bypassed: the head of the queue, or the node before, leads past it. */
  ghost function Bypassed(v: View, q: seq<int>, u: int, i: nat): View
    requires i < |q| && u in v.records && q[i] in v.nodes && (i > 0 ==> q[i - 1] in v.nodes)
  {
    var next := v.nodes[q[i]].next;
    if i == 0 then v.(records := v.records[u := v.records[u].(wq := next)])
    else v.(nodes := v.nodes[q[i - 1] := v.nodes[q[i - 1]].(next := next)])
  }

  /** The node taken out is no longer anyone's. */
  ghost function WithoutNode(v: View, q: seq<int>, u: int, i: nat): View
    requires i < |q| && u in v.records && q[i] in v.nodes && (i > 0 ==> q[i - 1] in v.nodes)
  {
    var b := Bypassed(v, q, u, i);
    b.(nodes := b.nodes - {q[i]}, frames := b.frames - {q[i]})
  }

  lemma HeadDropped(frames: Frames, r: int, q: seq<int>)
    requires r !in q
    ensures HeadNode(frames - {r}, q) == HeadNode(frames, q)
  {
  }

  /** What taking r out of the queue of u relies on. */
  ghost predicate Queued(a: System, q: seq<int>, u: int, i: nat) {
    i < |q| && QueueIs(a, q, u) && a.running == q[i] &&
    (forall x :: x in a.threads && x != u ==> q[i] !in a.threads[x].queue) &&
    (forall x :: x in a.waits ==> a.waits[x] in a.threads && x in a.threads[a.waits[x]].queue)
  }

  lemma NodesOf(v: View, a: System, q: seq<int>, u: int, i: nat)
    requires Represents(v, a) && Queued(a, q, u, i)
    ensures u in v.records && q[i] in v.nodes && (i > 0 ==> q[i - 1] in v.nodes)
  {
    assert q[i] in q;
    if i > 0 { assert q[i - 1] in q; }
  }

  lemma NodeRemoved(v: View, a: System, q: seq<int>, u: int, i: nat)
    requires Represents(v, a) && Queued(a, q, u, i)
    ensures u in v.records && q[i] in v.nodes && (i > 0 ==> q[i - 1] in v.nodes)
    ensures Represents(WithoutNode(v, q, u, i), Awake(a, u))
  {
    NodesOf(v, a, q, u, i);
    var r, v', a' := q[i], WithoutNode(v, q, u, i), Awake(a, u);
    forall x
      ensures TcbOk(v', a', x)
    {
      RemovedTcb(v, a, q, u, i, x);
    }
    forall x
      ensures NodeOk(v', a', x)
    {
      if x in a.waits && x != r && a.waits[x] == u {
        RemovedNode(v, a, q, u, i, x);
      } else {
        OtherNode(v, a, q, u, i, x);
      }
    }
  }

  lemma RemovedTcb(v: View, a: System, q: seq<int>, u: int, i: nat, x: int)
    requires Represents(v, a) && Queued(a, q, u, i)
    requires u in v.records && q[i] in v.nodes && (i > 0 ==> q[i - 1] in v.nodes)
    ensures TcbOk(WithoutNode(v, q, u, i), Awake(a, u), x)
  {
    assert TcbOk(v, a, x);
    if x == u {
      NodeAt(v, a, q, u, i);
      BehindAt(q, i);
      WithoutMembers(q, q[i]);
      HeadDropped(v.frames, q[i], Without(q, q[i]));
    } else if x in a.threads {
      HeadDropped(v.frames, q[i], a.threads[x].queue);
    }
  }

  lemma HeadAfter(frames: Frames, q: seq<int>, i: nat, k: nat)
    requires Distinct(q) && i < |q| && k < |q| && k != i
    ensures HeadNode(frames - {q[i]}, Behind(Without(q, q[i]), q[k])) ==
      if k + 1 == i then HeadNode(frames, q[i + 1..]) else HeadNode(frames, q[k + 1..])
  {
    WithoutBehind(q, i, k);
    var l := Without(q, q[i]);
    BehindIn(l, q[k]);
    HeadDropped(frames, q[i], Behind(l, q[k]));
  }

  lemma RemovedNode(v: View, a: System, q: seq<int>, u: int, i: nat, x: int)
    requires Represents(v, a) && Queued(a, q, u, i) && x in a.waits && x != q[i] && a.waits[x] == u
    requires u in v.records && q[i] in v.nodes && (i > 0 ==> q[i - 1] in v.nodes)
    ensures NodeOk(WithoutNode(v, q, u, i), Awake(a, u), x)
  {
    assert NodeOk(v, a, x);
    var k := IndexOf(q, x);
    NodeAfter(v, a, q, u, i, k);
    hide Behind, Without, IndexOf, HeadNode, Represents, QueueIs, Distinct;
  }

  /** The node at another position leads to the rest of the shorter queue. */
  lemma NodeAfter(v: View, a: System, q: seq<int>, u: int, i: nat, k: nat)
    requires Represents(v, a) && Queued(a, q, u, i) && k < |q| && k != i
    ensures q[i] in v.nodes && (i > 0 ==> q[i - 1] in v.nodes) && q[k] in v.nodes && u in v.records && q[k] in v.tcb
    ensures WithoutNode(v, q, u, i).nodes[q[k]] ==
      Node(v.tcb[q[k]], HeadNode(v.frames - {q[i]}, Behind(Without(q, q[i]), q[k])))
  {
    NodeAt(v, a, q, u, k);
    HeadAfter(v.frames, q, i, k);
    if k + 1 == i {
      Predecessor(v, a, q, u, i);
    } else {
      Elsewhere(v, a, q, u, i, k);
    }
  }

  lemma Elsewhere(v: View, a: System, q: seq<int>, u: int, i: nat, k: nat)
    requires Represents(v, a) && Queued(a, q, u, i) && k < |q| && k != i && k + 1 != i
    ensures q[i] in v.nodes && (i > 0 ==> q[i - 1] in v.nodes) && q[k] in v.nodes && u in v.records
    ensures WithoutNode(v, q, u, i).nodes[q[k]] == v.nodes[q[k]]
  {
    NodesOf(v, a, q, u, i);
    NodeAt(v, a, q, u, k);
  }

  lemma Predecessor(v: View, a: System, q: seq<int>, u: int, i: nat)
    requires Represents(v, a) && Queued(a, q, u, i) && i > 0
    ensures q[i] in v.nodes && q[i - 1] in v.nodes && u in v.records
    ensures WithoutNode(v, q, u, i).nodes[q[i - 1]] == Node(v.nodes[q[i - 1]].tsk, HeadNode(v.frames, q[i + 1..]))
  {
    NodeAt(v, a, q, u, i);
    NodeAt(v, a, q, u, i - 1);
    NodesOf(v, a, q, u, i);
  }

  lemma OtherNode(v: View, a: System, q: seq<int>, u: int, i: nat, x: int)
    requires Represents(v, a) && Queued(a, q, u, i) && !(x in a.waits && x != q[i] && a.waits[x] == u)
    requires u in v.records && q[i] in v.nodes && (i > 0 ==> q[i - 1] in v.nodes)
    ensures NodeOk(WithoutNode(v, q, u, i), Awake(a, u), x)
  {
    assert NodeOk(v, a, x);
    if x in a.waits && x != q[i] {
      var w := a.waits[x];
      BehindIn(a.threads[w].queue, x);
      HeadDropped(v.frames, q[i], Behind(a.threads[w].queue, x));
      assert i > 0 ==> q[i - 1] in q;
    }
  }

  // ---------- taking a tcb off the list ----------

  /** Position i of the list is bypassed, and its tcb given back. */
  ghost function BypassedTcb(v: View, list: seq<int>, i: nat): View
    requires i < |list| && list[i] in v.records && (i > 0 ==> list[i - 1] in v.records)
  {
    if i == 0 then v
    else v.(records := v.records[list[i - 1] := v.records[list[i - 1]].(next := v.records[list[i]].next)])
  }

  ghost function WithoutTcb(v: View, list: seq<int>, i: nat): View
    requires i < |list| && list[i] in v.records && (i > 0 ==> list[i - 1] in v.records)
  {
    var b := BypassedTcb(v, list, i);
    b.(tcb := b.tcb - {list[i]}, records := b.records - {list[i]})
  }

  ghost function Dropped(a: System, u: int): System {
    a.(threads := a.threads - {u}, list := Without(a.list, u))
  }

  ghost predicate Removable(a: System, i: nat) {
    i < |a.list| && Listed(a) && a.list[i] in a.threads && a.list[i] !in a.waits &&
    (forall x :: x in a.waits ==> x in a.threads && a.waits[x] in a.threads && a.waits[x] != a.list[i])
  }

  lemma HeadTcbDropped(tcb: Tcbs, u: int, l: seq<int>)
    requires u !in l
    ensures HeadTcb(tcb - {u}, l) == HeadTcb(tcb, l)
  {
  }

  lemma NextAfter(tcb: Tcbs, list: seq<int>, i: nat, k: nat)
    requires Distinct(list) && i < |list| && k < |list| && k != i && (forall x :: x in list ==> x in tcb)
    ensures HeadTcb(tcb - {list[i]}, Behind(Without(list, list[i]), list[k])) ==
      if k + 1 == i then HeadTcb(tcb, list[i + 1..]) else HeadTcb(tcb, list[k + 1..])
  {
    WithoutBehind(list, i, k);
    BehindIn(Without(list, list[i]), list[k]);
    HeadTcbDropped(tcb, list[i], Behind(Without(list, list[i]), list[k]));
  }

  /** The tcbs at the positions after and before the one taken out. */
  lemma RecordsOf(v: View, a: System, i: nat)
    requires Represents(v, a) && Removable(a, i)
    ensures a.list[i] in v.records && (i > 0 ==> a.list[i - 1] in v.records)
    ensures Distinct(a.list) && forall x :: x in a.list ==> x in v.tcb
    ensures v.records[a.list[i]].next == HeadTcb(v.tcb, a.list[i + 1..])
  {
    TcbAt(v, a, i);
    if i > 0 { TcbAt(v, a, i - 1); }
  }

  lemma TcbBefore(v: View, a: System, i: nat)
    requires Represents(v, a) && Removable(a, i) && i > 0
    ensures a.list[i] in v.records && a.list[i - 1] in v.records
    ensures var r := WithoutTcb(v, a.list, i).records;
      a.list[i - 1] in r && r[a.list[i - 1]] == v.records[a.list[i - 1]].(
        next := HeadTcb(v.tcb - {a.list[i]}, Behind(Without(a.list, a.list[i]), a.list[i - 1])))
  {
    RecordsOf(v, a, i);
    hide Represents, Removable, HeadTcb, Without, Behind;
    NextAfter(v.tcb, a.list, i, i - 1);
    Apart(a.list, i - 1, i);
  }

  lemma TcbElsewhere(v: View, a: System, i: nat, k: nat)
    requires Represents(v, a) && Removable(a, i) && k < |a.list| && k != i && k + 1 != i
    ensures a.list[i] in v.records && (i > 0 ==> a.list[i - 1] in v.records) && a.list[k] in v.records
    ensures var r := WithoutTcb(v, a.list, i).records;
      a.list[k] in r && r[a.list[k]] == v.records[a.list[k]] && r[a.list[k]].next ==
        HeadTcb(v.tcb - {a.list[i]}, Behind(Without(a.list, a.list[i]), a.list[k]))
  {
    RecordsOf(v, a, i);
    TcbAt(v, a, k);
    hide Represents, Removable, HeadTcb, Without, Behind;
    NextAfter(v.tcb, a.list, i, k);
    Apart(a.list, k, i);
    if i > 0 { Apart(a.list, k, i - 1); }
  }

  lemma RemovedRecord(v: View, a: System, i: nat, x: int)
    requires Represents(v, a) && Removable(a, i) && a.list[i] in v.records && (i > 0 ==> a.list[i - 1] in v.records)
    ensures TcbOk(WithoutTcb(v, a.list, i), Dropped(a, a.list[i]), x)
  {
    assert TcbOk(v, a, x);
    if x in a.threads && x != a.list[i] {
      var k := IndexOf(a.list, x);
      if k + 1 == i { TcbBefore(v, a, i); } else { TcbElsewhere(v, a, i, k); }
      hide Represents, Removable, Without, Behind, HeadTcb, IndexOf;
    }
  }

  lemma Apart(q: seq<int>, j: nat, k: nat)
    requires Distinct(q) && j < |q| && k < |q| && j != k
    ensures q[j] != q[k]
  {
  }

  lemma TcbRemoved(v: View, a: System, i: nat)
    requires Represents(v, a) && Removable(a, i)
    ensures a.list[i] in v.records && (i > 0 ==> a.list[i - 1] in v.records)
    ensures Represents(WithoutTcb(v, a.list, i), Dropped(a, a.list[i]))
  {
    assert i > 0 ==> a.list[i - 1] in a.list;
    var v', a' := WithoutTcb(v, a.list, i), Dropped(a, a.list[i]);
    forall x
      ensures TcbOk(v', a', x) && NodeOk(v', a', x)
    {
      assert NodeOk(v, a, x);
      RemovedRecord(v, a, i, x);
    }
  }

  lemma HeadLeft(v: View, a: System, i: nat)
    requires Represents(v, a) && Removable(a, i)
    ensures a.list[i] in v.records && (i > 0 ==> a.list[i - 1] in v.records)
    ensures HeadTcb(v.tcb - {a.list[i]}, Without(a.list, a.list[i])) ==
      if i == 0 then v.records[a.list[i]].next else HeadTcb(v.tcb, a.list)
  {
    RecordsOf(v, a, i);
    BehindAt(a.list, i);
    WithoutMembers(a.list, a.list[i]);
    HeadTcbDropped(v.tcb, a.list[i], Without(a.list, a.list[i]));
  }

  lemma QueueHead(v: View, a: System, u: int)
    requires Represents(v, a) && Consistent(a) && u in a.threads && a.threads[u].queue != []
    ensures HeadNode(v.frames, a.threads[u].queue) != null
  {
    var t := a.threads[u].queue[0];
    assert QueueOk(a, u) && t in a.threads[u].queue;
    var w: WaitQueue := v.frames[t].wait;
  }

  /** The running thread, back from its switch, is queued on the thread it waits for. */
  lemma CanDequeue(a: System) returns (q: seq<int>, i: nat)
    requires Inv(a) && a.running in a.waits
    ensures a.waits[a.running] in a.threads && q == a.threads[a.waits[a.running]].queue
    ensures Queued(a, q, a.waits[a.running], i)
  {
    assert WaitOk(a, a.running);
    var u := a.waits[a.running];
    QueueOf(a, u);
    q := a.threads[u].queue;
    i := IndexOf(q, a.running);
    forall x | x in a.threads && x != u
      ensures q[i] !in a.threads[x].queue
    {
      assert QueueOk(a, x);
    }
    forall x | x in a.waits
      ensures a.waits[x] in a.threads && x in a.threads[a.waits[x]].queue
    {
      assert WaitOk(a, x);
    }
  }

  /** The first n of q, or all of them when n < 0. */
  function Front(q: seq<int>, n: int): seq<int> {
    if 0 <= n < |q| then q[..n] else q
  }

  /** The system once the threads of q have been made READY. */
  ghost function Awoken(a: System, q: seq<int>): System {
    a.(threads := Woken(a.threads, q))
  }

  class Kernel {
    var g_task_head: Tcb?
    var g_task_running: Tcb
    var task0: Tcb
    var g_resched: int
    var nextTid: int
    var frames: Frames
    ghost var s: System
    ghost var v: View

    /** The kernel's variables and objects hold the abstract system a, whichever thread is running. */
    ghost predicate Stores(a: System)
      reads this`frames, this`v, this`task0, this`nextTid, this`g_task_head, v.tcb.Values, Nodes(v)
    {
      Mirrors(v) && Root(frames, task0, nextTid, g_task_head, v, a)
    }

    lemma NowStores(a: System)
      requires Mirrors(v) && Root(frames, task0, nextTid, g_task_head, v, a)
      ensures Stores(a)
    {
    }

    ghost predicate Holds()
      reads this, v.tcb.Values, Nodes(v)
    {
      Stores(s) && s.running in v.tcb && g_task_running == v.tcb[s.running]
    }

    ghost predicate Valid()
      reads this, v.tcb.Values, Nodes(v)
    {
      Holds() && Runs(s)
    }

    /** init_task: the idle thread, running. */
    constructor ()
      ensures Valid() && s == Initial()
    {
      var idle := new Tcb(IDLE);
      g_task_head, g_task_running, task0 := idle, idle, idle;
      g_resched, nextTid, frames := 0, 1, map[];
      s, v := Initial(), View(map[IDLE := idle], map[], map[IDLE := Record(IDLE, READY, 0, null, null)], map[]);
    }

    // ---------- stores ----------

    method SetState(c: Tcb, x: int, ghost t: int)
      requires Mirrors(v) && t in v.tcb && c == v.tcb[t]
      modifies c`state, this`v
      ensures Mirrors(v) && v == old(v).(records := old(v.records)[t := old(v.records)[t].(state := x)])
    {
      c.state := x;
      v := v.(records := v.records[t := v.records[t].(state := x)]);
    }

    method SetCode(c: Tcb, x: int, ghost t: int)
      requires Mirrors(v) && t in v.tcb && c == v.tcb[t]
      modifies c`code_exit, this`v
      ensures Mirrors(v) && v == old(v).(records := old(v.records)[t := old(v.records)[t].(code := x)])
    {
      c.code_exit := x;
      v := v.(records := v.records[t := v.records[t].(code := x)]);
    }

    method SetQueue(c: Tcb, x: WaitQueue?, ghost t: int)
      requires Mirrors(v) && t in v.tcb && c == v.tcb[t]
      modifies c`wq_exit, this`v
      ensures Mirrors(v) && v == old(v).(records := old(v.records)[t := old(v.records)[t].(wq := x)])
    {
      c.wq_exit := x;
      v := v.(records := v.records[t := v.records[t].(wq := x)]);
    }

    method SetNext(c: Tcb, x: Tcb?, ghost t: int)
      requires Mirrors(v) && t in v.tcb && c == v.tcb[t]
      modifies c`next, this`v
      ensures Mirrors(v) && v == old(v).(records := old(v.records)[t := old(v.records)[t].(next := x)])
    {
      c.next := x;
      v := v.(records := v.records[t := v.records[t].(next := x)]);
    }

    // ---------- schedule ----------

    /** The position k links after position i of a list of n. */
    static ghost function Wrap(i: nat, k: nat, n: nat): int {
      if i + k < n then i + k else i + k - n
    }

    /** c is the tcb at position j of the task list. */
    ghost predicate At(c: Tcb, j: int)
      reads this
    {
      0 <= j < |s.list| && s.list[j] in v.tcb && c == v.tcb[s.list[j]]
    }

    /** One link on from position k after the running thread, back to the head at the end. */
    lemma Start()
      requires Holds() && Listed(s)
      ensures s.running in s.list && s.list != [] && |Round(s.list, s.running)| == |s.list| - 1
      ensures At(g_task_running, Wrap(IndexOf(s.list, s.running), 0, |s.list|))
    {
    }

    lemma NextAt(c: Tcb, k: nat)
      requires Holds() && Listed(s) && k < |s.list|
      requires At(c, Wrap(IndexOf(s.list, s.running), k, |s.list|))
      ensures g_task_head != null
      ensures var j := Wrap(IndexOf(s.list, s.running), k + 1, |s.list|);
        At(if c.next == null then g_task_head else c.next, j)
    {
      hide Listed, Represents, IndexOf, Behind;
      var j := Wrap(IndexOf(s.list, s.running), k, |s.list|);
      TcbAt(v, s, j);
      TcbAt(v, s, 0);
      assert s.list[0..] == s.list;
      if j + 1 < |s.list| { TcbAt(v, s, j + 1); }
    }

    /** What schedule reads there: the thread Round lists next, or the running one after the last. */
    lemma SelectAt(c: Tcb, k: nat)
      requires Holds() && Listed(s) && k < |s.list|
      requires At(c, Wrap(IndexOf(s.list, s.running), k + 1, |s.list|))
      ensures var q := Round(s.list, s.running);
        |q| == |s.list| - 1 &&
        s.running in v.tcb && g_task_running == v.tcb[s.running] &&
        if k == |q| then c == g_task_running
        else c != g_task_running && q[k] in v.tcb && c == v.tcb[q[k]] &&
             FirstEligible(s.threads, q[k..], s.running) ==
             if c.tid != 0 && c.state == READY then q[k] else FirstEligible(s.threads, q[k + 1..], s.running)
      ensures FirstEligible(s.threads, [], s.running) == s.running
    {
      var q := Round(s.list, s.running);
      if k < |q| { assert q[k..][0] == q[k] && q[k..][1..] == q[k + 1..]; }
      var j := Wrap(IndexOf(s.list, s.running), k + 1, |s.list|);
      assert TcbOk(v, s, s.list[j]);
      assert s.list[j] in s.list;
    }

    lemma Selected(t: int)
      requires Holds() && t in v.tcb
      ensures t in s.threads && (v.tcb[t] == g_task_running <==> t == s.running)
      ensures v.tcb[t].state == READY <==> s.threads[t].state == READY
    {
      assert TcbOk(v, s, t);
    }

    /** The loop of schedule: the next READY thread other than the idle one, or back to the running one. */
    method Select() returns (select: Tcb)
      requires Holds() && Listed(s)
      ensures var t := FirstEligible(s.threads, Round(s.list, s.running), s.running);
        t in s.threads && t in v.tcb && select == v.tcb[t] &&
        (select == g_task_running <==> t == s.running) &&
        (select.state == READY <==> s.threads[t].state == READY)
    {
      hide Listed, IndexOf, Round, Wrap, At, FirstEligible;
      Start();
      ghost var i, n, q := IndexOf(s.list, s.running), |s.list|, Round(s.list, s.running);
      ghost var k: nat := 0;
      select := g_task_running;
      assert q[0..] == q;
      while true
        invariant k < n && At(select, Wrap(i, k, n))
        invariant FirstEligible(s.threads, q, s.running) == FirstEligible(s.threads, q[k..], s.running)
        decreases n - k
      {
        NextAt(select, k);
        var next := select.next;
        if next == null {
          next := g_task_head;
        }
        select := next;
        SelectAt(select, k);
        if select == g_task_running {
          assert q[k..] == [];
          break;
        }
        if select.tid != 0 && select.state == READY {
          break;
        }
        k := k + 1;
      }
      Selected(FirstEligible(s.threads, q, s.running));
    }

    /** The system schedule leaves, and what it does with the tcb the loop stopped at. */
    lemma Scheduled()
      requires Holds() && Inv(s)
      ensures Listed(s)
      ensures var s', t := Tasks.Schedule(s), FirstEligible(s.threads, Round(s.list, s.running), s.running);
        Runs(s') && Stores(s') && s.running in s.threads && IDLE in v.tcb && task0 == v.tcb[IDLE] &&
        s' == s.(running := s'.running) && s'.running ==
        if t != s.running then t else if s.threads[s.running].state == READY then s.running else IDLE
    {
      ChoiceFrom(s.threads, s.list, s.running);
      ScheduleKeeps(s);
      HistoryStored(v, s, Tasks.Schedule(s));
    }

    /** g_resched = 0 and switch_to(select); the abstract system becomes a, in which the same thread runs. */
    method SwitchTo(select: Tcb, ghost a: System)
      requires Stores(a) && a.running in v.tcb && select == v.tcb[a.running]
      modifies this`g_task_running, this`g_resched, this`s
      ensures Holds() && s == a
    {
      hide Root, Nodes;
      g_resched := 0;
      g_task_running := select;
      s := a;
    }

    /** Nothing changes but the history in a. */
    ghost method Note(a: System)
      requires Stores(a) && a.running in v.tcb && g_task_running == v.tcb[a.running]
      modifies this`s
      ensures Holds() && s == a
    {
      hide Root;
      s := a;
    }

    /** The switch point: control goes to the thread schedule selects. */
    method Schedule()
      requires Holds() && Inv(s)
      modifies this`g_task_running, this`g_resched, this`s
      ensures Valid() && s == Tasks.Schedule(old(s))
    {
      Scheduled();
      hide Inv, Runs, Listed, Stores, FirstEligible, Round, Tasks.Schedule;
      ghost var a := Tasks.Schedule(s);
      var select := Select();
      if select == g_task_running {
        if select.state == READY {
          Note(a);
          return;
        }
        select := task0;
      }
      SwitchTo(select, a);
    }

    // ---------- wake_up and exit ----------

    method PutState(c: Tcb, x: int, ghost t: int, ghost a: System)
      requires Stores(a) && t in a.threads && t in v.tcb && c == v.tcb[t]
      modifies c`state, this`v
      ensures Stores(InState(a, t, x)) && v == old(v).(records := v.records)
    {
      StateStored(v, a, t, x);
      hide Mirrors, Represents;
      SetState(c, x, t);
    }

    /** p->tsk->state = TASK_STATE_READY at position k of the queue of u, and p = p->next. */
    method WakeNode(p: WaitQueue, ghost q: seq<int>, ghost u: int, ghost k: nat, ghost a: System)
      returns (next: WaitQueue?, ghost a': System)
      requires Stores(a) && QueueIs(a, q, u) && k < |q| && p == HeadNode(v.frames, q[k..])
      modifies v.tcb.Values, this`v
      ensures Stores(a') && QueueIs(a', q, u) && q[k] in a.threads && a' == InState(a, q[k], READY)
      ensures v == old(v).(records := v.records) && next == HeadNode(v.frames, q[k + 1..])
    {
      NodeAt(v, a, q, u, k);
      StillQueue(a, q, u, q[k]);
      hide Represents, QueueIs, HeadNode;
      a' := InState(a, q[k], READY);
      PutState(p.tsk, READY, q[k], a);
      next := p.next;
    }

    static lemma WokenOne(a: System, b: System, q: seq<int>, k: nat)
      requires k < |q| && b == Awoken(a, q[..k]) && q[k] in b.threads
      ensures InState(b, q[k], READY) == Awoken(a, q[..k + 1])
    {
      assert q[..k + 1] == q[..k] + [q[k]];
      assert InState(b, q[k], READY).threads == Woken(a.threads, q[..k + 1]);
    }

    static lemma HeadOf(frames: Frames, q: seq<int>)
      requires HeadNode(frames, q) != null
      ensures q != []
    {
    }

    /** wake_up(&tsk->wq_exit, n): the first n threads of the queue, or all of them when n < 0. */
    method WakeUp(tsk: Tcb, n: int, ghost u: int, ghost a: System) returns (ghost a': System)
      requires Stores(a) && Inv(a) && u in a.threads && u in v.tcb && tsk == v.tcb[u]
      modifies v.tcb.Values, this`v
      ensures Stores(a') && v == old(v).(records := v.records)
      ensures var q := a.threads[u].queue;
        a' == Awoken(a, Front(q, n))
    {
      hide *;
      ghost var q, k: nat := a.threads[u].queue, 0;
      CanWake(tsk, u, a);
      a' := a;
      var p, m := tsk.wq_exit, n;
      while p != null && m != 0
        invariant k <= |q| && m == n - k && (0 <= n ==> k <= n)
        invariant Stores(a') && QueueIs(a', q, u) && p == HeadNode(v.frames, q[k..])
        invariant v == old(v).(records := v.records) && a' == Awoken(a, q[..k])
        decreases |q| - k
      {
        HeadOf(v.frames, q[k..]);
        ghost var b := a';
        p, a' := WakeNode(p, q, u, k, b);
        WokenOne(a, b, q, k);
        k, m := k + 1, m - 1;
      }
      SomeLeft(q, u, k, a');
      FrontIs(q, n, k);
    }

    static lemma FrontIs(q: seq<int>, n: int, k: nat)
      requires k <= |q| && (k == n || (k == |q| && (0 <= n ==> k <= n)))
      ensures q[..k] == Front(q, n)
    {
    }

    lemma CanWake(tsk: Tcb, u: int, a: System)
      requires Stores(a) && Inv(a) && u in a.threads && u in v.tcb && tsk == v.tcb[u]
      ensures var q := a.threads[u].queue;
        QueueIs(a, q, u) && tsk.wq_exit == HeadNode(v.frames, q[0..]) && a == Awoken(a, q[..0])
    {
      QueueOf(a, u);
      var q := a.threads[u].queue;
      assert TcbOk(v, a, u) && q[0..] == q && Woken(a.threads, q[..0]) == a.threads;
    }

    lemma SomeLeft(q: seq<int>, u: int, k: nat, a: System)
      requires Stores(a) && QueueIs(a, q, u) && k <= |q|
      ensures k < |q| ==> HeadNode(v.frames, q[k..]) != null
    {
      if k < |q| {
        NodeAt(v, a, q, u, k);
        var w: WaitQueue := v.frames[q[k]].wait;
      }
    }

    method PutCode(c: Tcb, x: int, ghost t: int, ghost a: System) returns (ghost a': System)
      requires Stores(a) && t in a.threads && t in v.tcb && c == v.tcb[t]
      modifies c`code_exit, this`v
      ensures Stores(a') && v == old(v).(records := v.records)
      ensures a' == a.(threads := a.threads[t := a.threads[t].(code := x)])
    {
      hide Mirrors, Represents;
      CodeStored(v, a, t, x);
      SetCode(c, x, t);
      a' := a.(threads := a.threads[t := a.threads[t].(code := x)]);
    }

    /** sys_task_exit(code_exit), up to its switch. */
    method SysTaskExit(code_exit: int)
      requires Valid() && Enabled(s, Exit(code_exit))
      modifies this`g_task_running, this`g_resched, this`s, this`v, v.tcb.Values
      ensures Valid() && s == Step(old(s), Exit(code_exit)).0
    {
      CanExit(code_exit);
      hide *;
      ghost var r := s.running;
      ghost var a := WakeUp(g_task_running, -1, r, s);
      WokenKeys(s, s.threads[r].queue);
      ghost var b := PutCode(g_task_running, code_exit, r, a);
      PutState(g_task_running, ZOMBIE, r, b);
      ExitedIs(s, a, b, code_exit);
      StoresHistory(InState(b, r, ZOMBIE), Exited(s, code_exit));
      Note(Exited(s, code_exit));
      Schedule();
    }

    lemma CanExit(code: int)
      requires Valid() && Enabled(s, Exit(code))
      ensures Stores(s) && Inv(s) && s.running in s.threads && s.running in v.tcb && g_task_running == v.tcb[s.running]
      ensures Inv(Exited(s, code)) && Exited(s, code).running == s.running
      ensures Runs(s) && Step(s, Exit(code)).0 == Tasks.Schedule(Exited(s, code))
    {
      ExitKeeps(s, code);
    }

    static lemma WokenKeys(a: System, q: seq<int>)
      ensures forall t :: t in Awoken(a, q).threads <==> t in a.threads
    {
    }

    static lemma ExitedIs(s: System, a: System, b: System, code: int)
      requires s.running in s.threads && s.running in a.threads
      requires a == Awoken(s, s.threads[s.running].queue)
      requires b == a.(threads := a.threads[s.running := a.threads[s.running].(code := code)])
      ensures Exited(s, code) == InState(b, s.running, ZOMBIE).(exited := Exited(s, code).exited)
    {
      var r := s.running;
      assert InState(b, r, ZOMBIE).threads == a.threads[r := a.threads[r].(code := code, state := ZOMBIE)];
    }

    lemma StoresHistory(a: System, b: System)
      requires Stores(a) && b == a.(exited := b.exited, joined := b.joined, freed := b.freed, running := b.running)
      ensures Stores(b)
    {
      HistoryStored(v, a, b);
    }

    // ---------- the task list ----------

    /** get_task(tid). */
    method GetTask(tid: int) returns (tsk: Tcb?)
      requires Valid()
      ensures tsk == if tid in s.threads then v.tcb[tid] else null
    {
      ghost var k: nat := 0;
      tsk := g_task_head;
      assert s.list[0..] == s.list;
      assert Listed(s) && Represents(v, s);
      hide Consistent, Represents;
      while tsk != null
        invariant k <= |s.list| && tsk == HeadTcb(v.tcb, s.list[k..])
        invariant tid !in s.list[..k]
        decreases |s.list| - k
      {
        TcbAt(v, s, k);
        if tsk.tid == tid {
          break;
        }
        tsk := tsk.next;
        k := k + 1;
      }
      if tsk == null {
        if k < |s.list| { TcbAt(v, s, k); }
        assert s.list[..|s.list|] == s.list;
      }
    }

    // ---------- creation ----------

    /** The loop of add_task: the last tcb of the list. */
    method LastTask() returns (q: Tcb)
      requires Mirrors(v) && Represents(v, s) && Listed(s) && g_task_head == HeadTcb(v.tcb, s.list)
      ensures s.list != [] && s.list[|s.list| - 1] in v.tcb && q == v.tcb[s.list[|s.list| - 1]]
    {
      ghost var n: nat, k: nat := |s.list|, 0;
      assert s.list[0..] == s.list && IDLE in s.list;
      hide Represents, Listed;
      TcbAt(v, s, 0);
      var p: Tcb? := g_task_head;
      while true
        invariant k < n && p != null && p == HeadTcb(v.tcb, s.list[k..])
        decreases n - k
      {
        TcbAt(v, s, k);
        q := p;
        p := p.next;
        if p == null { break; }
        k := k + 1;
      }
      if k + 1 < n { TcbAt(v, s, k + 1); }
    }

    /** add_task(tsk): to the end of the list, which the idle thread keeps from being empty. */
    method AddTask(tsk: Tcb)
      requires Mirrors(v) && Root(frames, task0, nextTid - 1, g_task_head, v, s) && Runs(s)
      requires tsk !in v.tcb.Values && tsk.Fields() == Record(s.nextTid, READY, 0, null, null)
      requires s.running in v.tcb && g_task_running == v.tcb[s.running]
      modifies this`s, this`v, v.tcb.Values
      ensures Valid() && s == Created(old(s)) && v.tcb == old(v.tcb)[old(s.nextTid) := tsk]
    {
      hide Represents, Inv, Listed, Root, WithTcb, Created;
      CanAdd(tsk);
      var q := LastTask();
      Append(q, tsk);
    }

    /** The store of add_task. */
    method Append(q: Tcb, tsk: Tcb)
      requires Mirrors(v) && s.list != [] && s.list[|s.list| - 1] in v.tcb && q == v.tcb[s.list[|s.list| - 1]]
      requires s.nextTid !in v.tcb && tsk !in v.tcb.Values && tsk.Fields() == Record(s.nextTid, READY, 0, null, null)
      requires s.list[|s.list| - 1] in v.records && Runs(Created(s)) && Created(s).running == s.running
      requires s.running in v.tcb && s.running != s.nextTid && g_task_running == v.tcb[s.running]
      requires Root(frames, task0, nextTid, g_task_head, WithTcb(v, s, tsk), Created(s))
      requires WithTcb(v, s, tsk).tcb == v.tcb[s.nextTid := tsk]
      modifies q`next, this`s, this`v
      ensures Valid() && s == Created(old(s)) && v.tcb == old(v.tcb)[old(s.nextTid) := tsk]
    {
      hide *;
      LinkTcb(q, tsk, s.list[|s.list| - 1]);
      NowStores(Created(s));
      Note(Created(s));
      NowValid();
    }

    lemma NowValid()
      requires Holds() && Runs(s)
      ensures Valid()
    {
    }

    lemma CanAdd(tsk: Tcb)
      requires Root(frames, task0, nextTid - 1, g_task_head, v, s) && Runs(s) && s.running in v.tcb
      ensures Represents(v, s) && Listed(s) && g_task_head == HeadTcb(v.tcb, s.list)
      ensures s.list != [] && s.list[|s.list| - 1] in v.tcb && s.nextTid !in v.tcb && Runs(Created(s))
      ensures s.list[|s.list| - 1] in v.records
      ensures Root(frames, task0, nextTid, g_task_head, WithTcb(v, s, tsk), Created(s))
      ensures WithTcb(v, s, tsk).tcb == v.tcb[s.nextTid := tsk] && Created(s).running == s.running != s.nextTid
    {
      TcbAdded(v, s, tsk);
      CreateKeeps(s);
      assert s.list[0] in s.list && s.list[|s.list| - 1] in s.list;
      HeadPlus(v.tcb, v.tcb[s.nextTid := tsk], s.list, s.nextTid);
    }

    /** q->next = tsk. */
    method LinkTcb(q: Tcb, tsk: Tcb, ghost last: int)
      requires Mirrors(v) && last in v.tcb && q == v.tcb[last] && s.list != [] && last == s.list[|s.list| - 1]
      requires tsk !in v.tcb.Values && s.nextTid !in v.tcb && tsk.Fields() == Record(s.nextTid, READY, 0, null, null)
      modifies q`next, this`v
      ensures Mirrors(v) && v == WithTcb(old(v), s, tsk)
    {
      q.next := tsk;
      v := WithTcb(v, s, tsk);
    }

    /** sys_task_create: ustack is the stack pointer passed in, and memory says whether kmalloc succeeds. */
    method SysTaskCreate(ustack: nat, memory: bool) returns (created: Tcb?)
      requires Valid() && Enabled(s, Create)
      modifies this`nextTid, this`s, this`v, v.tcb.Values
      ensures Valid() && (created != null <==> And(ustack, 3) == 0 && memory)
      ensures if created == null then s == old(s) else
        s == Step(old(s), Create).0 && fresh(created) && v.tcb == old(v.tcb)[old(s.nextTid) := created]
    {
      hide And, Represents, Inv;
      if And(ustack, 3) != 0 {
        return null;
      }
      if !memory {
        return null;
      }
      var c := new Tcb(nextTid);
      nextTid := nextTid + 1;
      AddTask(c);
      created := c;
    }

    // ---------- sleep_on ----------

    /** The stores of sleep_on up to its switch: the node goes to the head of the queue. */
    method Enqueue(tsk: Tcb, ghost u: int)
      requires Stores(s) && s.running in v.tcb && g_task_running == v.tcb[s.running] && s.running in s.threads
      requires u in v.tcb && tsk == v.tcb[u] && u in s.threads && Pushable(s, s.running, u)
      modifies this`frames, this`v, v.tcb.Values
      ensures Stores(InState(Pushed(s, s.running, u), s.running, WAITING)) && v.tcb == old(v.tcb)
    {
      hide Pushable, Root;
      var wait := new WaitQueue(g_task_running, tsk.wq_exit);
      assert Stores(s) && v.records[u] == tsk.Fields();
      hide Stores;
      PushNode(tsk, wait, u, s);
      PutState(g_task_running, WAITING, s.running, Pushed(s, s.running, u));
    }

    /** sleep_on(&tsk->wq_exit) up to its switch. */
    method SleepOn(tsk: Tcb, ghost u: int)
      requires Valid() && s.running !in s.waits && s.running != IDLE
      requires u in s.threads && s.threads[u].state != ZOMBIE && u in v.tcb && tsk == v.tcb[u]
      modifies this`g_task_running, this`g_resched, this`frames, this`s, this`v, v.tcb.Values
      ensures Valid() && s == Tasks.Schedule(Asleep(old(s), u)) && v.tcb == old(v.tcb)
    {
      hide *;
      Sleeps(u);
      Enqueue(tsk, u);
      Note(Asleep(s, u));
      Schedule();
    }

    /** Before the push: the node will hold what NodePushed expects, and the two stores make Asleep. */
    lemma Sleeps(u: int)
      requires Valid() && s.running !in s.waits && s.running != IDLE
      requires u in s.threads && s.threads[u].state != ZOMBIE
      ensures Inv(Asleep(s, u)) && Pushable(s, s.running, u) && Stores(s) && Asleep(s, u).running == s.running
      ensures u in v.tcb && u in v.records && v.tcb[u].wq_exit == v.records[u].wq
      ensures s.running in s.threads && s.running in v.tcb && g_task_running == v.tcb[s.running]
      ensures InState(Pushed(s, s.running, u), s.running, WAITING) == Asleep(s, u)
    {
      AsleepKeeps(s, u);
      CanPush(s, u);
    }

    /** *head = wait; the node stays on the stack of the running thread. */
    method PushNode(tsk: Tcb, wait: WaitQueue, ghost u: int, ghost a: System)
      requires Stores(a) && a.running in v.tcb && g_task_running == v.tcb[a.running] && Pushable(a, a.running, u)
      requires u in v.tcb && tsk == v.tcb[u] && wait.Fields() == Node(v.tcb[a.running], v.records[u].wq)
      modifies tsk`wq_exit, this`frames, this`v
      ensures Stores(Pushed(a, a.running, u)) && v.tcb == old(v.tcb)
    {
      hide Represents, Pushable, Mirrors, HeadTcb;
      NodePushed(v, a, a.running, u, wait);
      ghost var r := a.running;
      SetQueue(tsk, wait, u);
      PutFrame(tsk, wait, u, r);
    }

    /** The node is a local variable: it lives on the stack of the running thread. */
    method PutFrame(tsk: Tcb, wait: WaitQueue, ghost u: int, ghost r: int)
      requires frames == v.frames && Mirrors(v) && r in v.tcb && g_task_running == v.tcb[r]
      requires u in v.tcb && tsk == v.tcb[u]
      modifies this`frames, this`v
      ensures frames == v.frames && Mirrors(v)
      ensures v == old(v).(frames := old(v).frames[r := Frame(tsk, wait)], nodes := old(v).nodes[r := wait.Fields()])
    {
      frames := frames[g_task_running.tid := Frame(tsk, wait)];
      v := v.(frames := v.frames[r := Frame(tsk, wait)], nodes := v.nodes[r := wait.Fields()]);
    }

    method SetNodeNext(w: WaitQueue, x: WaitQueue?, ghost t: int)
      requires Mirrors(v) && t in v.frames && w == v.frames[t].wait
      requires forall y :: y in v.frames && y != t ==> v.frames[y].wait != w
      modifies w`next, this`v
      ensures Mirrors(v) && v == old(v).(nodes := old(v.nodes)[t := old(v.nodes)[t].(next := x)])
    {
      w.next := x;
      v := v.(nodes := v.nodes[t := v.nodes[t].(next := x)]);
    }

    /** The nodes of different threads are different. */
    lemma OneNode(a: System, x: int, y: int)
      requires Stores(a) && x in v.frames && y in v.frames && v.frames[x].wait == v.frames[y].wait
      ensures x == y
    {
      assert NodeOk(v, a, x) && NodeOk(v, a, y);
    }

    /** The loop of sleep_on after its switch: the node before wait in the queue. */
    method FindNode(head: WaitQueue, wait: WaitQueue, ghost q: seq<int>, ghost u: int, ghost i: nat, ghost a: System)
      returns (p: WaitQueue)
      requires Stores(a) && QueueIs(a, q, u) && 0 < i < |q| && head == HeadNode(v.frames, q)
      requires q[i] in v.frames && wait == v.frames[q[i]].wait
      ensures q[i - 1] in v.frames && p == v.frames[q[i - 1]].wait
    {
      var next: WaitQueue? := head;
      ghost var k: nat := 0;
      p := head;
      assert q[0..] == q && Represents(v, a) && Mirrors(v);
      hide Represents, QueueIs;
      while true
        invariant k < i && next != null && next == HeadNode(v.frames, q[k..])
        decreases i - k
      {
        NodeAt(v, a, q, u, k);
        NodeAt(v, a, q, u, k + 1);
        p := next;
        next := next.next;
        if next == wait {
          OneNode(a, q[k + 1], q[i]);
          break;
        }
        if next == null { break; }
        k := k + 1;
      }
    }

    /** Leaving sleep_on: its local variable goes with its stack frame. */
    method DropFrame(ghost r: int)
      requires frames == v.frames && Mirrors(v) && r in v.tcb && g_task_running == v.tcb[r]
      modifies this`frames, this`v
      ensures frames == v.frames && Mirrors(v)
      ensures v == old(v).(frames := old(v).frames - {r}, nodes := old(v).nodes - {r})
    {
      frames := frames - {g_task_running.tid};
      v := v.(frames := v.frames - {r}, nodes := v.nodes - {r});
    }

    static lemma FirstPlace(a: System, q: seq<int>, u: int, i: nat)
      requires QueueIs(a, q, u) && i < |q| && q[0] == q[i]
      ensures i == 0
    {
    }

    /** The stores of sleep_on after its switch. */
    method Bypass(tsk: Tcb, wait: WaitQueue, ghost q: seq<int>, ghost u: int, ghost i: nat, ghost a: System)
      requires Stores(a) && QueueIs(a, q, u) && i < |q| && u in v.tcb && tsk == v.tcb[u]
      requires q[i] in v.frames && wait == v.frames[q[i]].wait
      requires u in v.records && q[i] in v.nodes && (i > 0 ==> q[i - 1] in v.nodes)
      modifies v.tcb.Values, Nodes(v), this`v
      ensures Mirrors(v) && v == Bypassed(old(v), q, u, i)
    {
      NodeAt(v, a, q, u, 0);
      assert q[0..] == q && TcbOk(v, a, u);
      hide QueueIs;
      if tsk.wq_exit == wait {
        OneNode(a, q[0], q[i]);
        FirstPlace(a, q, u, i);
        hide Root;
        SetQueue(tsk, wait.next, u);
      } else {
        var p := FindNode(tsk.wq_exit, wait, q, u, i, a);
        forall y | y in v.frames && v.frames[y].wait == p
          ensures y == q[i - 1]
        {
          OneNode(a, y, q[i - 1]);
        }
        hide Root;
        SetNodeNext(p, wait.next, q[i - 1]);
      }
    }

    /** sleep_on after its switch: the running thread takes its node off the queue of tsk. */
    method Dequeue(tsk: Tcb, wait: WaitQueue, ghost q: seq<int>, ghost u: int, ghost i: nat, ghost a: System)
      requires Stores(a) && Queued(a, q, u, i) && u in v.tcb && tsk == v.tcb[u]
      requires q[i] in v.frames && wait == v.frames[q[i]].wait && q[i] in v.tcb && g_task_running == v.tcb[q[i]]
      modifies v.tcb.Values, Nodes(v), this`frames, this`v
      ensures Stores(Awake(a, u)) && v.tcb == old(v.tcb)
    {
      hide *;
      CanTake(q, u, i, a);
      ghost var v0 := v;
      Bypass(tsk, wait, q, u, i, a);
      BypassKeeps(v0, q, u, i);
      Leave(WithoutNode(v0, q, u, i), q[i], Awake(a, u));
    }

    /** The thread r leaves sleep_on, and a is what is left. */
    method Leave(ghost v': View, ghost r: int, ghost a: System)
      requires frames == v.frames && Mirrors(v) && r in v.tcb && g_task_running == v.tcb[r]
      requires v' == v.(frames := v.frames - {r}, nodes := v.nodes - {r})
      requires Root(v'.frames, task0, nextTid, g_task_head, v', a)
      modifies this`frames, this`v
      ensures Stores(a) && v.tcb == old(v.tcb)
    {
      hide *;
      DropFrame(r);
      NowStores(a);
    }

    lemma CanTake(q: seq<int>, u: int, i: nat, a: System)
      requires Stores(a) && Queued(a, q, u, i) && q[i] in v.tcb
      ensures QueueIs(a, q, u) && i < |q| && u in a.threads && frames == v.frames
      ensures u in v.records && q[i] in v.nodes && (i > 0 ==> q[i - 1] in v.nodes)
      ensures var v' := WithoutNode(v, q, u, i);
        Root(v'.frames, task0, nextTid, g_task_head, v', Awake(a, u))
    {
      NodeRemoved(v, a, q, u, i);
      hide Represents;
    }

    static lemma BypassKeeps(v0: View, q: seq<int>, u: int, i: nat)
      requires i < |q| && u in v0.records && q[i] in v0.nodes && (i > 0 ==> q[i - 1] in v0.nodes)
      ensures var b := Bypassed(v0, q, u, i);
        b.tcb == v0.tcb && b.frames == v0.frames &&
        WithoutNode(v0, q, u, i) == b.(frames := b.frames - {q[i]}, nodes := b.nodes - {q[i]})
    {
    }

    static lemma SamePlace(a: System, j: nat, k: nat)
      requires Listed(a) && j < |a.list| && k < |a.list| && a.list[j] == a.list[k]
      ensures j == k
    {
    }

    /** The loop of remove_task: the tcb before tsk in the list. */
    method FindTask(tsk: Tcb, ghost i: nat, ghost a: System) returns (p: Tcb)
      requires Stores(a) && Listed(a) && 0 < i < |a.list| && a.list[i] in v.tcb && tsk == v.tcb[a.list[i]]
      requires g_task_head != null
      ensures a.list[i - 1] in v.tcb && p == v.tcb[a.list[i - 1]]
    {
      hide Represents, Listed;
      var next: Tcb? := g_task_head;
      ghost var k: nat := 0;
      p := g_task_head;
      assert a.list[0..] == a.list && Represents(v, a) && Mirrors(v) && g_task_head == HeadTcb(v.tcb, a.list);
      while true
        invariant k < i && next != null && next == HeadTcb(v.tcb, a.list[k..])
        decreases i - k
      {
        TcbAt(v, a, k);
        TcbAt(v, a, k + 1);
        TcbAt(v, a, i);
        p := next;
        next := next.next;
        if next == tsk { break; }
        if next == null { break; }
        k := k + 1;
      }
      SamePlace(a, k + 1, i);
    }

    /** remove_task(tsk), which is at position i of the list. */
    method RemoveTask(tsk: Tcb, ghost i: nat, ghost a: System)
      requires Stores(a) && Removable(a, i) && a.list[i] in v.tcb && tsk == v.tcb[a.list[i]]
      requires a.list[i] in v.records && (i > 0 ==> a.list[i - 1] in v.records)
      modifies v.tcb.Values, this`g_task_head, this`v
      ensures Mirrors(v) && v == BypassedTcb(old(v), a.list, i)
      ensures g_task_head == if i == 0 then old(tsk.next) else old(g_task_head)
    {
      HeadIs(tsk, i, a);
      hide Removable;
      if tsk == g_task_head {
        g_task_head := g_task_head.next;
      } else {
        var p := FindTask(tsk, i, a);
        hide Root;
        SetNext(p, tsk.next, a.list[i - 1]);
      }
    }

    lemma HeadIs(tsk: Tcb, i: nat, a: System)
      requires Stores(a) && Removable(a, i) && a.list[i] in v.tcb && tsk == v.tcb[a.list[i]]
      ensures Listed(a) && g_task_head != null && (tsk == g_task_head <==> i == 0)
    {
      TcbAt(v, a, 0);
      TcbAt(v, a, i);
      assert a.list[0..] == a.list;
    }

    /** kfree(tsk): the tcb is no longer one of the kernel's. */
    ghost method Free(list: seq<int>, i: nat, v0: View)
      requires i < |list| && list[i] in v0.records && (i > 0 ==> list[i - 1] in v0.records)
      requires Mirrors(v) && v == BypassedTcb(v0, list, i)
      modifies this`v
      ensures Mirrors(v) && v == WithoutTcb(v0, list, i)
    {
      v := WithoutTcb(v0, list, i);
    }

    lemma CanRemove(i: nat, a: System)
      requires Stores(a) && Removable(a, i) && a.list[i] != IDLE && a.list[i] in v.tcb
      ensures i < |a.list| && a.list[i] in v.records && (i > 0 ==> a.list[i - 1] in v.records)
      ensures var v' := WithoutTcb(v, a.list, i);
        v'.tcb == v.tcb - {a.list[i]} &&
        Root(frames, task0, nextTid, if i == 0 then v.tcb[a.list[i]].next else g_task_head, v', Dropped(a, a.list[i]))
    {
      TcbRemoved(v, a, i);
      HeadLeft(v, a, i);
      hide Represents;
    }

    /** remove_task and kfree of the thread at position i of the list. */
    method Reap(tsk: Tcb, ghost i: nat, ghost a: System)
      requires Stores(a) && Removable(a, i) && a.list[i] != IDLE
      requires a.list[i] in v.tcb && tsk == v.tcb[a.list[i]]
      modifies v.tcb.Values, this`g_task_head, this`v
      ensures Stores(Dropped(a, a.list[i])) && v.tcb == old(v.tcb) - {a.list[i]}
    {
      hide *;
      CanRemove(i, a);
      ghost var v0 := v;
      RemoveTask(tsk, i, a);
      Free(a.list, i, v0);
      NowStores(Dropped(a, a.list[i]));
    }

    /** The part of the invariant the end of sys_task_wait relies on. */
    static ghost predicate Reapable(a: System, u: int) {
      Consistent(a) && u in a.threads && a.threads[u].state == ZOMBIE && a.threads[a.running].state == READY &&
      forall x :: x != u ==> Awaited(a, x)
    }

    /** The end of sys_task_wait, once tsk is a zombie: its code, and the last one out reaps it. */
    method Finish(tsk: Tcb, ghost u: int, ghost a: System) returns (code: int)
      requires Stores(a) && Reapable(a, u) && u in a.threads && u in v.tcb && tsk == v.tcb[u]
      requires a.running in v.tcb && g_task_running == v.tcb[a.running]
      modifies v.tcb.Values, this`g_task_head, this`v, this`s
      ensures Valid() && s == Reaped(a, u) && code == a.threads[u].code
    {
      ReapKeeps(a, u);
      assert TcbOk(v, a, u);
      code := tsk.code_exit;
      if tsk.wq_exit == null {
        ghost var i := CanReap(u, a);
        hide Reapable, Stores, Runs;
        Reap(tsk, i, a);
        StoresHistory(Dropped(a, u), Reaped(a, u));
        Note(Reaped(a, u));
      } else {
        assert a.threads[u].queue != [];
        hide Reapable, Stores, Runs;
        StoresHistory(a, Reaped(a, u));
        Note(Reaped(a, u));
      }
    }

    lemma CanReap(u: int, a: System) returns (i: nat)
      requires Stores(a) && Reapable(a, u) && u in v.tcb && v.tcb[u].wq_exit == null
      ensures a.threads[u].queue == [] && i < |a.list| && a.list[i] == u
      ensures u != IDLE && u != a.running && Removable(a, i)
    {
      assert StateOk(a, u) && QueueOk(a, u) && WaitOk(a, u) && TcbOk(v, a, u);
      if a.threads[u].queue != [] {
        QueueHead(v, a, u);
      }
      assert u in a.list;
      i := IndexOf(a.list, u);
      forall x | x in a.waits
        ensures x in a.threads && a.waits[x] in a.threads && a.waits[x] != u
      {
        assert WaitOk(a, x);
      }
    }

    /** sys_task_wait(tid), up to its switch or its return. */
    method SysTaskWait(tid: int) returns (o: Outcome)
      requires Valid() && Enabled(s, Wait(tid))
      modifies this`g_task_running, this`g_resched, this`g_task_head, this`frames, this`s, this`v, v.tcb.Values
      ensures Valid() && (s, o) == Step(old(s), Wait(tid))
    {
      var tsk := GetTask(tid);
      if tsk == null {
        return Failed;
      }
      assert TcbOk(v, s, tid);
      if tsk.state != ZOMBIE {
        SleepOn(tsk, tid);
        o := None;
      } else {
        var code := Finish(tsk, tid, s);
        o := Joined(code);
      }
    }

    /** The rest of sleep_on and of sys_task_wait, once control is back. */
    method SysTaskResume() returns (o: Outcome)
      requires Valid() && Enabled(s, Resume)
      modifies this`g_task_head, this`frames, this`s, this`v, v.tcb.Values, Nodes(v)
      ensures Valid() && (s, o) == Step(old(s), Resume)
    {
      hide *;
      ghost var a := s;
      ghost var u, q, i := CanResume();
      var f := frames[g_task_running.tid];
      Dequeue(f.tsk, f.wait, q, u, i, s);
      var code := Finish(f.tsk, u, Awake(a, u));
      o := Joined(code);
    }

    /** The frame the running thread comes back to, and the state it finds. */
    lemma CanResume() returns (u: int, q: seq<int>, i: nat)
      requires Valid() && Enabled(s, Resume)
      ensures s.running in s.waits && u == s.waits[s.running]
      ensures var r := s.running;
        r in v.tcb && g_task_running == v.tcb[r] && g_task_running.tid == r && r in frames && frames == v.frames &&
        u in v.tcb && frames[r].tsk == v.tcb[u] && Stores(s) && Queued(s, q, u, i) && q[i] == r && u in s.threads
      ensures Reapable(Awake(s, u), u) && Awake(s, u).running == s.running
      ensures Step(s, Resume) == (Reaped(Awake(s, u), u), Joined(Awake(s, u).threads[u].code))
    {
      assert NodeOk(v, s, s.running) && TcbOk(v, s, s.running);
      TargetIsZombie(s);
      AwakeKeeps(s);
      u := s.waits[s.running];
      q, i := CanDequeue(s);
    }

    /** sys_task_yield. */
    method SysTaskYield()
      requires Valid() && Enabled(s, Yield)
      modifies this`g_task_running, this`g_resched, this`s
      ensures Valid() && s == Step(old(s), Yield).0
    {
      Schedule();
    }
  }
}
