/** What clients of one memory pool rely on over whole runs: where their blocks are, and that what they
    wrote stays there. */
module PoolTheorems {
  import opened Words
  import opened Tiling
  import opened Heap
  import opened Memory
  import opened HeapTheorems
  import opened Allocator

  // ---------- blocks in the pool ----------

  ghost function Fresh(memPool: nat, memPoolSize: nat): (k: Client)
    requires 0 < memPool && SIZEOF_TLSF + 8 * BHDR_OVERHEAD <= memPoolSize < 0x4000_0000
    ensures WellFormed(k.h)
  {
    PoolIsArea(memPool, memPoolSize);
    Client(Initial(memPool + TLSF_ROOM, PoolEnd(memPool, memPoolSize)), map[])
  }

  /** Every block handed out and not given back lies between the control structure and the end of the pool,
      whatever the pool size is modulo 8, and is aligned like the pool. */
  lemma EveryRunInPool(memPool: nat, memPoolSize: nat, cs: seq<Call>)
    requires 0 < memPool && SIZEOF_TLSF + 8 * BHDR_OVERHEAD <= memPoolSize < 0x4000_0000
    requires Runs(Fresh(memPool, memPoolSize), cs)
    ensures var k := After(Fresh(memPool, memPoolSize), cs);
      forall b {:trigger b in k.asked} :: b in k.asked ==>
        memPool + SIZEOF_TLSF <= b && b + BHDR_OVERHEAD + k.asked[b] <= memPool + memPoolSize &&
        (b + BHDR_OVERHEAD) % 8 == memPool % 8
  {
    hide Runs, After, Fresh, Placed, PoolEnd, IsArea, WellFormed, Initial, TotalSize, Walk, Next;
    PoolIsArea(memPool, memPoolSize);
    var first, end := memPool + TLSF_ROOM, PoolEnd(memPool, memPoolSize);
    FreshIs(memPool, memPoolSize);
    EveryRun(first, end, cs);
    var k := After(Fresh(memPool, memPoolSize), cs);
    AreaInsidePool(memPool, memPoolSize);
    forall b {:trigger b in k.asked} | b in k.asked
      ensures memPool + SIZEOF_TLSF <= b && b + BHDR_OVERHEAD + k.asked[b] <= memPool + memPoolSize
      ensures (b + BHDR_OVERHEAD) % 8 == memPool % 8
    {
      InPool(k.h, b, memPool);
    }
  }

  lemma FreshIs(memPool: nat, memPoolSize: nat)
    requires 0 < memPool && SIZEOF_TLSF + 8 * BHDR_OVERHEAD <= memPoolSize < 0x4000_0000
    ensures IsArea(memPool + TLSF_ROOM, PoolEnd(memPool, memPoolSize))
    ensures Fresh(memPool, memPoolSize) ==
      Client(Initial(memPool + TLSF_ROOM, PoolEnd(memPool, memPoolSize)), map[])
  {
    PoolIsArea(memPool, memPoolSize);
  }

  lemma InPool(h: State, b: int, memPool: int)
    requires Placed(h, b) && h.first == memPool + TLSF_ROOM
    ensures memPool + TLSF_ROOM <= b && Next(h.bs, b) <= h.end && (b + BHDR_OVERHEAD) % 8 == memPool % 8
  {
    SameRemainder(b + BHDR_OVERHEAD - h.first, memPool);
  }

  lemma SameRemainder(d: int, memPool: int)
    requires d % 8 == 0
    ensures (d + memPool + TLSF_ROOM) % 8 == memPool % 8
  {
  }

  // ---------- what clients write ----------

  /** What a client does with the pool: the three calls, and stores into a block it holds. */
  datatype Use =
    | Take(size: nat)
    | Release(b: int)
    | Resize(b: int, size: nat)
    | Write(b: int, i: nat, v: nat)

  /** For each block held, the words written to it, by their offset. */
  type Ledger = map<int, map<int, int>>

  ghost predicate Allowed(h: State, u: Use)
    requires WellFormed(h)
  {
    match u
    case Take(size) => Legal(Client(h, map[]), MallocCall(size))
    case Release(b) => Legal(Client(h, map[]), FreeCall(b))
    case Resize(b, size) => Legal(Client(h, map[]), ReallocCall(b, size))
    case Write(b, i, v) => Live(h, b) && i % 4 == 0 && i + 4 <= h.bs[b].size
  }

  ghost function Used(h: State, u: Use): (g: State)
    requires WellFormed(h) && Allowed(h, u)
    ensures WellFormed(g)
  {
    match u
    case Take(size) => Malloc(h, size).0
    case Release(b) => Free(h, b)
    case Resize(b, size) => Realloc(h, b, size).0
    case Write(_, _, _) => h
  }

  /** How many bytes realloc keeps. */
  ghost function Kept(h: State, b: int, size: nat): int
    requires b in h.bs
  {
    Min(h.bs[b].size, Request(size))
  }

  /** A new block has no words written to it yet, and a block that moves takes along those it has room for. */
  ghost function Noted(l: Ledger, h: State, u: Use): Ledger
    requires WellFormed(h) && Allowed(h, u)
  {
    match u
    case Take(size) =>
      var q := Malloc(h, size).1;
      if q.None? then l else l[q.value := map[]]
    case Release(b) => l - {b}
    case Resize(b, size) =>
      var q := Realloc(h, b, size).1;
      if q.None? || b !in l then l
      else (l - {b})[q.value := map i | i in l[b] && i + 4 <= Kept(h, b, size) :: l[b][i]]
    case Write(b, i, v) => if b in l then l[b := l[b][i := v]] else l
  }

  /** The ledger has the blocks that are held, and what it has for them is in memory. */
  ghost predicate Accurate(h: State, m: Memory, l: Ledger) {
    (forall b {:trigger Live(h, b)} {:trigger b in l} :: Live(h, b) <==> b in l) &&
    forall b, i {:trigger l[b][i]} :: b in l && i in l[b] ==> Written(h, m, b, i, l[b][i])
  }

  ghost predicate Written(h: State, m: Memory, b: int, i: int, v: int)
    requires Live(h, b)
  {
    0 <= i && i % 4 == 0 && i + 4 <= h.bs[b].size && Payload(m, b, i) == v
  }

  /** What memory keeps when the pool is used: the payloads of the other blocks, and as many words of a
      block that is resized or written as the call promises. */
  ghost predicate Keeps(h: State, u: Use, m: Memory, k: Memory)
    requires WellFormed(h) && Allowed(h, u)
  {
    match u
    case Take(size) => SameLivePayload(h, m, k, 0)
    case Release(b) => SameLivePayload(h, m, k, b)
    case Resize(b, size) =>
      var q := Realloc(h, b, size).1;
      if q.None? then k == m
      else SameLivePayload(h, m, k, b) && Moved(m, b, k, q.value, Kept(h, b, size))
    case Write(b, i, v) =>
      SameLivePayload(h, m, k, b) && Payload(k, b, i) == v &&
      forall j :: j != i ==> Payload(k, b, j) == Payload(m, b, j)
  }

  lemma OtherWritten(h: State, m: Memory, k: Memory, g: State, x: int, b: int, i: int, v: int)
    requires Live(h, b) && b != x && SameLivePayload(h, m, k, x) && Written(h, m, b, i, v)
    requires Live(g, b) && g.bs[b].size == h.bs[b].size
    ensures Written(g, k, b, i, v)
  {
    assert b + 8 <= b + 8 + i < Next(h.bs, b);
    assert Rd(k, b + 8 + i) == Rd(m, b + 8 + i);
  }

  /** One use. */
  lemma UseKeeps(h: State, u: Use, m: Memory, k: Memory, l: Ledger)
    requires WellFormed(h) && Allowed(h, u) && Accurate(h, m, l) && Keeps(h, u, m, k)
    ensures Accurate(Used(h, u), k, Noted(l, h, u))
  {
    match u {
      case Take(size) => TakeKeeps(h, size, m, k, l);
      case Release(b) => ReleaseKeeps(h, b, m, k, l);
      case Resize(b, size) => ResizeKeeps(h, b, size, m, k, l);
      case Write(b, i, v) => WriteKeeps(h, b, i, v, m, k, l);
    }
  }

  lemma TakeKeeps(h: State, size: nat, m: Memory, k: Memory, l: Ledger)
    requires WellFormed(h) && size <= MAX_REQUEST && Accurate(h, m, l) && SameLivePayload(h, m, k, 0)
    ensures Accurate(Malloc(h, size).0, k, Noted(l, h, Take(size)))
  {
    hide Malloc, SameLivePayload, Written, WellFormed;
    var (g, q) := Malloc(h, size);
    MallocKeeps(h, size);
    var l' := Noted(l, h, Take(size));
    forall b, i {:trigger l'[b][i]} | b in l' && i in l'[b]
      ensures Written(g, k, b, i, l'[b][i])
    {
      assert Written(h, m, b, i, l[b][i]);
      LiveAbove(h, b);
      OtherWritten(h, m, k, g, 0, b, i, l[b][i]);
    }
  }

  lemma LiveAbove(h: State, b: int)
    requires WellFormed(h) && Live(h, b)
    ensures b > 0
  {
  }

  lemma ReleaseKeeps(h: State, x: int, m: Memory, k: Memory, l: Ledger)
    requires WellFormed(h) && Live(h, x) && Accurate(h, m, l) && SameLivePayload(h, m, k, x)
    ensures Accurate(Free(h, x), k, Noted(l, h, Release(x)))
  {
    hide Free, SameLivePayload, Written, WellFormed;
    var g, l' := Free(h, x), Noted(l, h, Release(x));
    FreeKeeps(h, x);
    forall b, i {:trigger l'[b][i]} | b in l' && i in l'[b]
      ensures Written(g, k, b, i, l'[b][i])
    {
      assert Written(h, m, b, i, l[b][i]);
      OtherWritten(h, m, k, g, x, b, i, l[b][i]);
    }
  }

  lemma ResizeKeeps(h: State, x: int, size: nat, m: Memory, k: Memory, l: Ledger)
    requires WellFormed(h) && Allowed(h, Resize(x, size)) && Accurate(h, m, l) && Keeps(h, Resize(x, size), m, k)
    ensures Accurate(Realloc(h, x, size).0, k, Noted(l, h, Resize(x, size)))
  {
    hide Realloc, SameLivePayload, Written, WellFormed, InPlace, Moved, Request;
    ReallocKeeps(h, x, size);
    var (g, q) := Realloc(h, x, size);
    if q.Some? {
      MovedKeeps(h, g, x, q.value, Kept(h, x, size), m, k, l);
    }
  }

  /** The block x has become q, of which the first n bytes are those of x. */
  lemma MovedKeeps(h: State, g: State, x: int, q: int, n: int, m: Memory, k: Memory, l: Ledger)
    requires Live(h, x) && Live(g, q) && Accurate(h, m, l) && SameLivePayload(h, m, k, x)
    requires Moved(m, x, k, q, n) && n <= g.bs[q].size && (q == x || (!Live(h, q) && !Live(g, x)))
    requires forall a {:trigger Live(h, a)} {:trigger Live(g, a)} :: a != x && a != q ==>
      (Live(g, a) <==> Live(h, a)) && (Live(h, a) ==> g.bs[a].size == h.bs[a].size)
    ensures Accurate(g, k, (l - {x})[q := map i | i in l[x] && i + 4 <= n :: l[x][i]])
  {
    hide Live, SameLivePayload, Written, Moved;
    var l' := (l - {x})[q := map i | i in l[x] && i + 4 <= n :: l[x][i]];
    forall b, i {:trigger l'[b][i]} | b in l' && i in l'[b]
      ensures Live(g, b) && Written(g, k, b, i, l'[b][i])
    {
      if b == q {
        assert Written(h, m, x, i, l[x][i]);
        MovedWritten(h, m, k, g, x, b, n, i, l[x][i]);
      } else {
        assert Written(h, m, b, i, l[b][i]);
        OtherWritten(h, m, k, g, x, b, i, l[b][i]);
      }
    }
  }

  lemma MovedWritten(h: State, m: Memory, k: Memory, g: State, x: int, q: int, n: int, i: int, v: int)
    requires Live(h, x) && Live(g, q) && Moved(m, x, k, q, n) && n <= g.bs[q].size && i + 4 <= n
    requires Written(h, m, x, i, v)
    ensures Written(g, k, q, i, v)
  {
    assert Payload(k, q, i) == Payload(m, x, i);
  }

  lemma WriteKeeps(h: State, x: int, j: nat, v: nat, m: Memory, k: Memory, l: Ledger)
    requires WellFormed(h) && Allowed(h, Write(x, j, v)) && Accurate(h, m, l) && Keeps(h, Write(x, j, v), m, k)
    ensures Accurate(h, k, Noted(l, h, Write(x, j, v)))
  {
    var l' := Noted(l, h, Write(x, j, v));
    hide SameLivePayload, WellFormed;
    forall b, i {:trigger l'[b][i]} | b in l' && i in l'[b]
      ensures Written(h, k, b, i, l'[b][i])
    {
      if b != x {
        assert Written(h, m, b, i, l[b][i]);
        OtherWritten(h, m, k, h, x, b, i, l[b][i]);
      } else if i != j {
        assert Written(h, m, b, i, l[b][i]);
      }
    }
  }

  // ---------- over a whole run ----------

  ghost predicate AllAllowed(h: State, us: seq<Use>)
    requires WellFormed(h)
    decreases |us|
  {
    us != [] ==> Allowed(h, us[0]) && AllAllowed(Used(h, us[0]), us[1..])
  }

  /** The memories ms follow one another as the uses of the pool promise. */
  ghost predicate AllKeep(h: State, us: seq<Use>, ms: seq<Memory>)
    requires WellFormed(h) && AllAllowed(h, us)
    decreases |us|
  {
    |ms| == |us| + 1 &&
    (us != [] ==> Keeps(h, us[0], ms[0], ms[1]) && AllKeep(Used(h, us[0]), us[1..], ms[1..]))
  }

  ghost function HeapAfter(h: State, us: seq<Use>): (g: State)
    requires WellFormed(h) && AllAllowed(h, us)
    ensures WellFormed(g)
    decreases |us|
  {
    if us == [] then h else HeapAfter(Used(h, us[0]), us[1..])
  }

  ghost function LedgerAfter(l: Ledger, h: State, us: seq<Use>): Ledger
    requires WellFormed(h) && AllAllowed(h, us)
    decreases |us|
  {
    if us == [] then l else LedgerAfter(Noted(l, h, us[0]), Used(h, us[0]), us[1..])
  }

  /** Over every run, each word a client has written to a block, and neither overwritten nor cut off by
      resizing, is found in the block as long as the client holds it, wherever realloc has moved it. */
  lemma {:induction false} WordsStay(l: Ledger, h: State, us: seq<Use>, ms: seq<Memory>)
    requires WellFormed(h) && AllAllowed(h, us) && AllKeep(h, us, ms) && Accurate(h, ms[0], l)
    ensures Accurate(HeapAfter(h, us), ms[|us|], LedgerAfter(l, h, us))
    decreases |us|
  {
    if us != [] {
      UseKeeps(h, us[0], ms[0], ms[1], l);
      hide Accurate, Keeps, Used, Noted, Allowed, WellFormed;
      WordsStay(Noted(l, h, us[0]), Used(h, us[0]), us[1..], ms[1..]);
    }
  }

  /** A fresh pool starts with an empty ledger. */
  lemma NothingWritten(first: int, end: int, m: Memory)
    requires IsArea(first, end)
    ensures Accurate(Initial(first, end), m, map[])
  {
    InitialShape(first, end);
  }

  /** The same from a new pool, with nothing written. */
  lemma EveryWord(first: int, end: int, us: seq<Use>, ms: seq<Memory>)
    requires IsArea(first, end) && AllAllowed(Initial(first, end), us) && AllKeep(Initial(first, end), us, ms)
    ensures Accurate(HeapAfter(Initial(first, end), us), ms[|us|], LedgerAfter(map[], Initial(first, end), us))
  {
    hide Accurate, Keeps, Initial, IsArea, WellFormed, Allowed, Used, Noted;
    NothingWritten(first, end, ms[0]);
    WordsStay(map[], Initial(first, end), us, ms);
  }

  // ---------- the uses as calls ----------

  lemma ResizedAbove(h: State, b: int, size: nat)
    requires WellFormed(h) && Allowed(h, Resize(b, size))
    ensures var q := Realloc(h, b, size).1; q.Some? ==> q.value > 0
  {
    hide WellFormed, Realloc, InPlace, Request;
    ReallocKeeps(h, b, size);
    var (g, q) := Realloc(h, b, size);
    if q.Some? { LiveAbove(g, q.value); }
  }

  /** Each use, made with the methods of the allocator, keeps what Keeps says. */
  method Perform(t: Tlsf, u: Use)
    requires t.Valid() && Allowed(t.h, u)
    modifies t`mem, t`fl_bitmap, t`h, t.sl_bitmap, t.matrix
    ensures t.Valid() && t.h == Used(old(t.h), u) && Keeps(old(t.h), u, old(t.mem), t.mem)
  {
    hide WellFormed, Malloc, Free, Realloc, InPlace, Request, SameLivePayload, Moved, Payload, Min;
    match u {
      case Take(size) =>
        var ptr := t.MallocEx(size);
      case Release(b) =>
        LiveAbove(t.h, b);
        t.FreeEx(b + BHDR_OVERHEAD);
      case Resize(b, size) =>
        LiveAbove(t.h, b);
        ResizedAbove(t.h, b, size);
        var ptr := t.ReallocEx(b + BHDR_OVERHEAD, size);
      case Write(b, i, v) =>
        t.ClientStore(b, i, v);
    }
  }
}
