/** The words of an area and the block headers laid over them. */
module Memory {
  import opened Words
  import opened Mapping
  import opened Tiling
  import opened Heap
  import opened Header
  import opened Sequences

  type Memory = map<int, nat>

  function Rd(m: Memory, a: int): nat {
    if a in m then m[a] else 0
  }

  /** The four fields of bhdr_t; the last two share their place with the payload. */
  function PrevHdr(m: Memory, b: int): nat { Rd(m, b) }
  function SizeWord(m: Memory, b: int): nat { Rd(m, b + 4) }
  function FreePrev(m: Memory, b: int): nat { Rd(m, b + 8) }
  function FreeNext(m: Memory, b: int): nat { Rd(m, b + 12) }

  ghost predicate Spaced(bs: Blocks) {
    forall a, b {:trigger a in bs, b in bs} :: a in bs && b in bs && a < b ==> a + 16 <= b
  }

  ghost predicate Laid(bs: Blocks) {
    Spaced(bs) && Ordered(bs) && forall a {:trigger a in bs} :: a in bs ==> a > 0
  }

  lemma TiledIsLaid(bs: Blocks, first: int, end: int)
    requires Tiled(bs, first, end)
    ensures Laid(bs)
  {
    forall a, b | a in bs && b in bs && a < b
      ensures a + 16 <= b
    {
      assert Next(bs, a) <= b;
    }
  }

  function Head(s: seq<int>): int {
    if s == [] then 0 else s[0]
  }

  function Successor(s: seq<int>, i: int): int
    requires 0 <= i < |s|
  {
    if i + 1 < |s| then s[i + 1] else 0
  }

  function Predecessor(s: seq<int>, i: int): int
    requires 0 <= i < |s|
  {
    if i > 0 then s[i - 1] else 0
  }

  /** The free pointers of the blocks of s thread them in that order. */
  ghost predicate Threaded(m: Memory, s: seq<int>) {
    forall i {:trigger FreeNext(m, s[i])} {:trigger FreePrev(m, s[i])} :: 0 <= i < |s| ==>
      FreeNext(m, s[i]) == Successor(s, i) && FreePrev(m, s[i]) == Predecessor(s, i)
  }

  ghost predicate AllThreaded(m: Memory, ls: Lists) {
    forall c {:trigger ls[c]} :: c in ls ==> Threaded(m, ls[c])
  }

  // ---------- frames ----------

  ghost predicate SameHeaders(bs: Blocks, m: Memory, k: Memory) {
    forall a {:trigger PrevHdr(k, a)} {:trigger SizeWord(k, a)} :: a in bs ==>
      PrevHdr(k, a) == PrevHdr(m, a) && SizeWord(k, a) == SizeWord(m, a)
  }

  ghost predicate SamePayload(bs: Blocks, m: Memory, k: Memory) {
    forall a, w {:trigger Next(bs, a), Rd(k, w)} :: a in bs && !bs[a].free && a + 8 <= w < Next(bs, a)
      ==> Rd(k, w) == Rd(m, w)
  }

  ghost predicate SameLinks(m: Memory, k: Memory, x: int) {
    FreePrev(k, x) == FreePrev(m, x) && FreeNext(k, x) == FreeNext(m, x)
  }

  /** A store to a free pointer of x changes no header, no used payload and no other free pointer. */
  lemma LinkStore(bs: Blocks, m: Memory, x: int, w: int, v: nat)
    requires Laid(bs) && IsFree(bs, x) && (w == x + 8 || w == x + 12)
    ensures SameHeaders(bs, m, m[w := v]) && SamePayload(bs, m, m[w := v])
    ensures forall y {:trigger SameLinks(m, m[w := v], y)} :: y in bs && y != x ==> SameLinks(m, m[w := v], y)
    ensures w == x + 8 ==> FreePrev(m[w := v], x) == v && FreeNext(m[w := v], x) == FreeNext(m, x)
    ensures w == x + 12 ==> FreeNext(m[w := v], x) == v && FreePrev(m[w := v], x) == FreePrev(m, x)
  {
    forall a, u | a in bs && !bs[a].free && a + 8 <= u < Next(bs, a)
      ensures Rd(m[w := v], u) == Rd(m, u)
    {
      if a < x { assert Next(bs, a) <= x; }
    }
  }

  lemma SameTrans(bs: Blocks, m: Memory, k: Memory, l: Memory)
    requires SameHeaders(bs, m, k) && SamePayload(bs, m, k)
    requires SameHeaders(bs, k, l) && SamePayload(bs, k, l)
    ensures SameHeaders(bs, m, l) && SamePayload(bs, m, l)
  {
    forall a | a in bs
      ensures PrevHdr(l, a) == PrevHdr(m, a) && SizeWord(l, a) == SizeWord(m, a)
    {
      assert PrevHdr(k, a) == PrevHdr(m, a);
    }
  }

  lemma PushThreaded(m: Memory, k: Memory, s: seq<int>, b: int)
    requires Threaded(m, s) && b !in s && Distinct(s)
    requires FreePrev(k, b) == 0 && FreeNext(k, b) == Head(s)
    requires s != [] ==> FreePrev(k, s[0]) == b && FreeNext(k, s[0]) == FreeNext(m, s[0])
    requires forall i :: 0 < i < |s| ==> SameLinks(m, k, s[i])
    ensures Threaded(k, [b] + s)
  {
    var t := [b] + s;
    forall i | 0 <= i < |t|
      ensures FreeNext(k, t[i]) == Successor(t, i) && FreePrev(k, t[i]) == Predecessor(t, i)
    {
      if i > 0 {
        assert t[i] == s[i - 1];
        assert FreeNext(m, s[i - 1]) == Successor(s, i - 1);
        if i > 1 { assert SameLinks(m, k, s[i - 1]); }
      }
    }
  }

  /** Taking out position i: its neighbours are joined. */
  lemma CutThreaded(m: Memory, k: Memory, s: seq<int>, i: int)
    requires Threaded(m, s) && Distinct(s) && 0 <= i < |s|
    requires i > 0 ==> FreeNext(k, s[i - 1]) == Successor(s, i) && FreePrev(k, s[i - 1]) == FreePrev(m, s[i - 1])
    requires i + 1 < |s| ==>
      FreePrev(k, s[i + 1]) == Predecessor(s, i) && FreeNext(k, s[i + 1]) == FreeNext(m, s[i + 1])
    requires forall j :: 0 <= j < |s| && j != i && j != i - 1 && j != i + 1 ==> SameLinks(m, k, s[j])
    ensures Threaded(k, s[..i] + s[i + 1..])
  {
    var t := s[..i] + s[i + 1..];
    forall j | 0 <= j < |t|
      ensures FreeNext(k, t[j]) == Successor(t, j) && FreePrev(k, t[j]) == Predecessor(t, j)
    {
      var o := if j < i then j else j + 1;
      assert t[j] == s[o];
      assert FreeNext(m, s[o]) == Successor(s, o);
      if o != i - 1 && o != i + 1 { assert SameLinks(m, k, s[o]); }
    }
  }

  lemma SameThreaded(m: Memory, k: Memory, s: seq<int>)
    requires Threaded(m, s) && forall i :: 0 <= i < |s| ==> SameLinks(m, k, s[i])
    ensures Threaded(k, s)
  {
    forall i | 0 <= i < |s|
      ensures FreeNext(k, s[i]) == Successor(s, i) && FreePrev(k, s[i]) == Predecessor(s, i)
    {
      assert SameLinks(m, k, s[i]);
      assert FreeNext(m, s[i]) == Successor(s, i);
    }
  }

  // ---------- list surgery on the free pointers ----------

  /** The stores of INSERT_BLOCK. */
  function InsertStores(m: Memory, b: int, head: int): Memory
    requires b >= 0 && head >= 0
  {
    var k := m[b + 8 := 0][b + 12 := head];
    if head != 0 then k[head + 8 := b] else k
  }

  /** The stores of EXTRACT_BLOCK; those of EXTRACT_BLOCK_HDR are the case prev == 0. */
  function ExtractStores(m: Memory, b: int, prev: int, next: int): Memory
    requires prev >= 0 && next >= 0
  {
    var k := if next != 0 then m[next + 8 := prev] else m;
    var l := if prev != 0 then k[prev + 12 := next] else k;
    l[b + 8 := 0][b + 12 := 0]
  }

  ghost predicate NoOther(bs: Blocks, m: Memory, k: Memory, x: int, y: int, z: int) {
    forall a {:trigger SameLinks(m, k, a)} :: a in bs && a != x && a != y && a != z ==> SameLinks(m, k, a)
  }

  lemma InsertStored(bs: Blocks, m: Memory, b: int, head: int)
    requires Laid(bs) && IsFree(bs, b) && b > 0
    requires head != 0 ==> head > 0 && IsFree(bs, head) && head != b
    ensures var k := InsertStores(m, b, head);
      && SameHeaders(bs, m, k) && SamePayload(bs, m, k)
      && FreePrev(k, b) == 0 && FreeNext(k, b) == head
      && (head != 0 ==> FreePrev(k, head) == b && FreeNext(k, head) == FreeNext(m, head))
      && NoOther(bs, m, k, b, head, b)
  {
    BothStored(bs, m, b, head);
    var l := m[b + 8 := 0][b + 12 := head];
    if head != 0 {
      LinkStore(bs, l, head, head + 8, b);
      hide Laid, IsFree, SameHeaders, SamePayload;
      var k := l[head + 8 := b];
      SameTrans(bs, m, l, k);
      assert SameLinks(m, l, head) && SameLinks(l, k, b);
      forall a {:trigger SameLinks(m, k, a)} | a in bs && a != b && a != head
        ensures SameLinks(m, k, a)
      {
        assert SameLinks(m, l, a) && SameLinks(l, k, a);
      }
    }
  }

  /** The two pointers of b itself. */
  lemma BothStored(bs: Blocks, m: Memory, b: int, head: int)
    requires Laid(bs) && IsFree(bs, b) && b > 0 && head >= 0
    ensures var l := m[b + 8 := 0][b + 12 := head];
      && SameHeaders(bs, m, l) && SamePayload(bs, m, l)
      && FreePrev(l, b) == 0 && FreeNext(l, b) == head
      && forall a {:trigger SameLinks(m, l, a)} :: a in bs && a != b ==> SameLinks(m, l, a)
  {
    LinkStore(bs, m, b, b + 8, 0);
    var k := m[b + 8 := 0];
    LinkStore(bs, k, b, b + 12, head);
    var l := k[b + 12 := head];
    SameTrans(bs, m, k, l);
    forall a {:trigger SameLinks(m, l, a)} | a in bs && a != b
      ensures SameLinks(m, l, a)
    {
      assert SameLinks(m, k, a) && SameLinks(k, l, a);
    }
  }

  lemma NoOtherTrans(bs: Blocks, m: Memory, k: Memory, l: Memory, x: int, y: int, z: int)
    requires NoOther(bs, m, k, x, y, z) && NoOther(bs, k, l, x, y, z)
    ensures NoOther(bs, m, l, x, y, z)
  {
    forall a {:trigger SameLinks(m, l, a)} | a in bs && a != x && a != y && a != z
      ensures SameLinks(m, l, a)
    {
      assert SameLinks(m, k, a) && SameLinks(k, l, a);
    }
  }

  /** The first half of EXTRACT_BLOCK joins the neighbours... */
  lemma JoinStored(bs: Blocks, m: Memory, b: int, prev: int, next: int)
    requires Laid(bs) && IsFree(bs, b)
    requires next != 0 ==> next > 0 && IsFree(bs, next) && next != b
    requires prev != 0 ==> prev > 0 && IsFree(bs, prev) && prev != b && prev != next
    ensures var k := if next != 0 then m[next + 8 := prev] else m;
      var l := if prev != 0 then k[prev + 12 := next] else k;
      && SameHeaders(bs, m, l) && SamePayload(bs, m, l)
      && (next != 0 ==> FreePrev(l, next) == prev && FreeNext(l, next) == FreeNext(m, next))
      && (prev != 0 ==> FreeNext(l, prev) == next && FreePrev(l, prev) == FreePrev(m, prev))
      && NoOther(bs, m, l, b, prev, next)
  {
    var k := if next != 0 then m[next + 8 := prev] else m;
    var l := if prev != 0 then k[prev + 12 := next] else k;
    if next != 0 {
      LinkStore(bs, m, next, next + 8, prev);
    }
    if prev != 0 {
      LinkStore(bs, k, prev, prev + 12, next);
      assert SameLinks(m, k, prev);
      assert next != 0 ==> SameLinks(k, l, next);
    }
    SameTrans(bs, m, k, l);
    NoOtherTrans(bs, m, k, l, b, prev, next);
  }

  /** ...and the second clears the pointers of the block taken out. */
  lemma ExtractStored(bs: Blocks, m: Memory, b: int, prev: int, next: int)
    requires Laid(bs) && IsFree(bs, b)
    requires next != 0 ==> next > 0 && IsFree(bs, next) && next != b
    requires prev != 0 ==> prev > 0 && IsFree(bs, prev) && prev != b && prev != next
    ensures var k := ExtractStores(m, b, prev, next);
      && SameHeaders(bs, m, k) && SamePayload(bs, m, k)
      && (next != 0 ==> FreePrev(k, next) == prev && FreeNext(k, next) == FreeNext(m, next))
      && (prev != 0 ==> FreeNext(k, prev) == next && FreePrev(k, prev) == FreePrev(m, prev))
      && NoOther(bs, m, k, b, prev, next)
  {
    hide Laid, SameHeaders, SamePayload, Rd;
    JoinStored(bs, m, b, prev, next);
    var k := if next != 0 then m[next + 8 := prev] else m;
    var l := if prev != 0 then k[prev + 12 := next] else k;
    LinkStore(bs, l, b, b + 8, 0);
    var u := l[b + 8 := 0];
    LinkStore(bs, u, b, b + 12, 0);
    var v := u[b + 12 := 0];
    SameTrans(bs, m, l, u);
    SameTrans(bs, m, u, v);
    NoOtherTrans(bs, m, l, u, b, prev, next);
    NoOtherTrans(bs, m, u, v, b, prev, next);
    assert next != 0 ==> SameLinks(l, u, next) && SameLinks(u, v, next);
    assert prev != 0 ==> SameLinks(l, u, prev) && SameLinks(u, v, prev);
  }

  lemma InsertThreaded(bs: Blocks, m: Memory, ls: Lists, c: Class, b: int)
    requires Laid(bs) && IsFree(bs, b)
    requires AllThreaded(m, ls) && Unrepeated(ls) && Members(bs, ls) && c in ls
    requires forall d {:trigger ls[d]} :: d in ls ==> b !in ls[d]
    ensures Head(ls[c]) >= 0
    ensures var k := InsertStores(m, b, Head(ls[c]));
      SameHeaders(bs, m, k) && SamePayload(bs, m, k) && AllThreaded(k, Push(ls, c, b))
  {
    var head := Head(ls[c]);
    if ls[c] != [] { assert head in ls[c]; }
    InsertStored(bs, m, b, head);
    var k := InsertStores(m, b, head);
    forall d {:trigger ls[d]} | d in ls
      ensures Threaded(k, Push(ls, c, b)[d])
    {
      var s := ls[d];
      forall i | 0 <= i < |s| && s[i] != head
        ensures SameLinks(m, k, s[i])
      {
        assert s[i] in ls[d];
      }
      if d == c {
        PushThreaded(m, k, s, b);
      } else {
        forall i | 0 <= i < |s|
          ensures s[i] != head
        {
          assert s[i] in ls[d];
        }
        SameThreaded(m, k, s);
      }
    }
  }

  /** Both extractions: the block at position i of its list leaves it. */
  lemma ExtractThreaded(bs: Blocks, m: Memory, ls: Lists, c: Class, i: int)
    requires Laid(bs)
    requires AllThreaded(m, ls) && Unrepeated(ls) && Members(bs, ls) && c in ls
    requires 0 <= i < |ls[c]|
    ensures Predecessor(ls[c], i) >= 0 && Successor(ls[c], i) >= 0
    ensures var b := ls[c][i];
      var k := ExtractStores(m, b, Predecessor(ls[c], i), Successor(ls[c], i));
      SameHeaders(bs, m, k) && SamePayload(bs, m, k) && AllThreaded(k, Drop(ls, c, b))
  {
    var s := ls[c];
    var b, prev, next := s[i], Predecessor(s, i), Successor(s, i);
    assert b in s;
    if i > 0 { assert prev in s; }
    if i + 1 < |s| { assert next in s; }
    ExtractStored(bs, m, b, prev, next);
    var k := ExtractStores(m, b, prev, next);
    WithoutIsCut(s, i);
    forall d {:trigger ls[d]} | d in ls
      ensures Threaded(k, Drop(ls, c, b)[d])
    {
      forall j | 0 <= j < |ls[d]|
        ensures ls[d][j] in ls[d] && ls[d][j] > 0 && IsFree(bs, ls[d][j])
      {
        assert ls[d][j] in ls[d];
      }
      if d == c {
        CutThreaded(m, k, s, i);
      } else {
        SameThreaded(m, k, ls[d]);
      }
    }
  }

  // ---------- headers ----------

  /** The block before a is free. */
  predicate AfterFree(bs: Blocks, a: int) {
    IsFree(bs, Prev(bs, a))
  }

  /** The header at a says what the block is. */
  ghost predicate HeaderAt(m: Memory, bs: Blocks, a: int)
    requires a in bs
  {
    && bs[a].size >= 0
    && SizeWord(m, a) == Word(bs[a].size, bs[a].free, AfterFree(bs, a))
    && (AfterFree(bs, a) ==> PrevHdr(m, a) == bs[a].prev)
  }

  ghost predicate Headers(m: Memory, bs: Blocks, but: set<int>) {
    forall a {:trigger SizeWord(m, a)} {:trigger HeaderAt(m, bs, a)} :: a in bs && a !in but ==> HeaderAt(m, bs, a)
  }

  ghost predicate SameOtherHeaders(bs: Blocks, m: Memory, k: Memory, x: int) {
    forall a {:trigger PrevHdr(k, a)} {:trigger SizeWord(k, a)} :: a in bs && a != x ==>
      PrevHdr(k, a) == PrevHdr(m, a) && SizeWord(k, a) == SizeWord(m, a)
  }

  lemma HeaderStore(bs: Blocks, m: Memory, ls: Lists, x: int, w: int, v: nat)
    requires Laid(bs) && x in bs && (w == x || w == x + 4)
    requires AllThreaded(m, ls) && Members(bs, ls)
    ensures var k := m[w := v];
      AllThreaded(k, ls) && SamePayload(bs, m, k) && SameOtherHeaders(bs, m, k, x)
  {
    var k := m[w := v];
    forall a, u | a in bs && !bs[a].free && a + 8 <= u < Next(bs, a)
      ensures Rd(k, u) == Rd(m, u)
    {
      if a < x { assert Next(bs, a) <= x; }
    }
    forall c {:trigger ls[c]} | c in ls
      ensures Threaded(k, ls[c])
    {
      forall i | 0 <= i < |ls[c]|
        ensures SameLinks(m, k, ls[c][i])
      {
        assert ls[c][i] in ls[c];
      }
      SameThreaded(m, k, ls[c]);
    }
  }

  /** Headers away from the given blocks are as before. */
  ghost predicate HeadersKept(bs: Blocks, m: Memory, k: Memory, but: set<int>) {
    forall a {:trigger PrevHdr(k, a)} {:trigger SizeWord(k, a)} :: a in bs && a !in but ==>
      PrevHdr(k, a) == PrevHdr(m, a) && SizeWord(k, a) == SizeWord(m, a)
  }

  lemma CutSizes(size: int, n: int)
    requires MIN_BLOCK_SIZE <= n && n % 8 == 0 && size % 8 == 0 && size - n >= SIZEOF_BHDR && size < 0x4000_0000
    ensures IsSize(n) && IsSize(size - n - BHDR_OVERHEAD)
  {
  }

  /** The headers after a cut: the two halves and the block after are written, the others kept. */
  lemma CutHeaders(g: State, b: int, n: int, m: Memory, k: Memory)
    requires WellFormed(g) && Live(g, b) && !IsFree(g.bs, Next(g.bs, b))
    requires n >= MIN_BLOCK_SIZE && n % 8 == 0 && g.bs[b].size >= n + SIZEOF_BHDR
    requires Headers(m, g.bs, {b, Next(g.bs, b)})
    requires Next(g.bs, b) in g.bs && g.bs[Next(g.bs, b)].size >= 0
    requires var t, b2, nb := Split(g.bs, b, n), b + BHDR_OVERHEAD + n, Next(g.bs, b);
      && HeadersKept(t, m, k, {b, b2, nb})
      && SizeWord(k, b) == Word(n, false, AfterFree(g.bs, b))
      && (AfterFree(g.bs, b) ==> PrevHdr(k, b) == g.bs[b].prev)
      && SizeWord(k, b2) == Word(g.bs[b].size - n - BHDR_OVERHEAD, true, false)
      && SizeWord(k, nb) == Word(g.bs[nb].size, false, true) && PrevHdr(k, nb) == b2
    ensures Headers(k, Split(g.bs, b, n), {})
  {
    SplitNext(g.bs, g.first, g.end, b, n);
    var t, b2, nb := Split(g.bs, b, n), b + BHDR_OVERHEAD + n, Next(g.bs, b);
    forall a {:trigger HeaderAt(k, t, a)} | a in t
      ensures HeaderAt(k, t, a)
    {
      if a != b2 && a != nb {
        assert Prev(t, a) == Prev(g.bs, a);
        assert Prev(g.bs, a) != b2;
        if a != b { assert SizeWord(m, a) == SizeWord(k, a); }
      }
    }
  }

  lemma SizesFit(bs: Blocks, first: int, end: int, a: int)
    requires Tiled(bs, first, end) && end - first < 0x4000_0000 && a in bs
    ensures IsSize(bs[a].size) && bs[a].size % 8 == 0
    ensures a != end ==> Next(bs, a) in bs && Next(bs, a) > a
  {
    assert Next(bs, a) <= end || a == end;
  }

  /** Only the block after b can tell whether b is free. */
  lemma MarkAfter(bs: Blocks, first: int, end: int, b: int, free: bool, a: int)
    requires Tiled(bs, first, end) && b in bs && b != end && a in bs
    ensures var t := Mark(bs, b, free);
      && Prev(t, a) == Prev(bs, a)
      && AfterFree(t, a) == if a == Next(bs, b) then free else AfterFree(bs, a)
  {
    assert Next(bs, b) in bs;
    if Prev(bs, a) == b && a != first { assert Next(bs, Prev(bs, a)) == a; }
  }

  /** The headers once b counts as used: only those of b and of the block after are out of date. */
  lemma ClaimHeaders(m: Memory, bs: Blocks, first: int, end: int, b: int)
    requires Tiled(bs, first, end) && end - first < 0x4000_0000 && Headers(m, bs, {}) && IsFree(bs, b)
    ensures var t, nb := Mark(bs, b, false), Next(bs, b);
      && nb in bs && nb > b && t[nb] == bs[nb]
      && Headers(m, t, {b, nb})
      && SizeWord(m, b) == Word(bs[b].size, true, AfterFree(t, b))
      && (AfterFree(t, b) ==> PrevHdr(m, b) == t[b].prev)
      && SizeWord(m, nb) == Word(bs[nb].size, bs[nb].free, true)
  {
    var t, nb := Mark(bs, b, false), Next(bs, b);
    SizesFit(bs, first, end, b);
    assert HeaderAt(m, bs, b) && HeaderAt(m, bs, nb);
    MarkAfter(bs, first, end, b, false, b);
    forall a {:trigger HeaderAt(m, t, a)} | a in t && a != b && a != nb
      ensures HeaderAt(m, t, a)
    {
      assert HeaderAt(m, bs, a);
      MarkAfter(bs, first, end, b, false, a);
    }
  }

  lemma PatchHeaders(m: Memory, k: Memory, bs: Blocks, x: int, y: int)
    requires Headers(m, bs, {x, y}) && HeadersKept(bs, m, k, {x, y})
    requires x in bs && y in bs && HeaderAt(k, bs, x) && HeaderAt(k, bs, y)
    ensures Headers(k, bs, {})
  {
    forall a {:trigger HeaderAt(k, bs, a)} | a in bs
      ensures HeaderAt(k, bs, a)
    {
      if a != x && a != y { assert HeaderAt(m, bs, a); }
    }
  }

  lemma KeepHeaders(bs: Blocks, m: Memory, k: Memory, but: set<int>)
    requires Headers(m, bs, but) && SameHeaders(bs, m, k)
    ensures Headers(k, bs, but)
  {
    forall a {:trigger HeaderAt(k, bs, a)} | a in bs && a !in but
      ensures HeaderAt(k, bs, a)
    {
      assert HeaderAt(m, bs, a);
    }
  }

  lemma ForgetHeaders(bs: Blocks, m: Memory, k: Memory, x: int, y: int)
    requires Headers(m, bs, {y}) && HeadersKept(bs, m, k, {x})
    ensures Headers(k, bs, {x, y})
  {
    forall a {:trigger HeaderAt(k, bs, a)} | a in bs && a !in {x, y}
      ensures HeaderAt(k, bs, a)
    {
      assert HeaderAt(m, bs, a);
    }
  }

  /** Merging b with the free block after it leaves the headers beyond that as they are. */
  lemma AbsorbHeaders(bs: Blocks, first: int, end: int, m: Memory, k: Memory, b: int)
    requires Tiled(bs, first, end) && b in bs && b != end && Next(bs, b) != end
    requires Headers(m, bs, {b, Next(bs, b), Next(bs, Next(bs, b))}) && HeadersKept(bs, m, k, {b})
    ensures Next(bs, b) in bs && Next(bs, Next(bs, b)) in bs
    ensures Headers(k, Absorb(bs, b), {b, Next(bs, Next(bs, b))})
  {
    var n := Next(bs, b);
    var nn := Next(bs, n);
    var t := Absorb(bs, b);
    AbsorbNext(bs, first, end, b);
    forall a {:trigger HeaderAt(k, t, a)} | a in t && a != b && a != nn
      ensures HeaderAt(k, t, a)
    {
      assert HeaderAt(m, bs, a);
      AbsorbAfter(bs, first, end, b, a);
    }
  }

  lemma AbsorbSizes(bs: Blocks, first: int, end: int, m: Memory, k: Memory, b: int)
    requires Tiled(bs, first, end) && end - first < 0x4000_0000 && b in bs && b != end && IsFree(bs, Next(bs, b))
    requires Headers(m, bs, {b, Next(bs, b)}) && HeadersKept(bs, m, k, {b})
    ensures Next(bs, b) in bs && Next(bs, Next(bs, b)) in bs
    ensures var n, t := Next(bs, b), Absorb(bs, b); var nn := Next(bs, n);
      && Next(t, b) == nn && nn != b && n != b
      && IsSize(bs[n].size) && IsSize(t[b].size) && IsSize(t[nn].size)
      && SizeWord(k, nn) == Word(t[nn].size, t[nn].free, true)
      && AfterFree(t, b) == AfterFree(bs, b) && t[b].prev == bs[b].prev
  {
    var n := Next(bs, b);
    var nn := Next(bs, n);
    AbsorbNext(bs, first, end, b);
    SizesFit(bs, first, end, n);
    SizesFit(bs, first, end, b);
    SizesFit(bs, first, end, nn);
    assert Next(bs, n) <= end;
    assert Prev(bs, nn) == n;
    assert HeaderAt(m, bs, nn);
    AbsorbAfter(bs, first, end, b, b);
  }

  lemma AbsorbAfter(bs: Blocks, first: int, end: int, b: int, a: int)
    requires Tiled(bs, first, end) && b in bs && b != end && Next(bs, b) != end
    requires Next(bs, b) in bs && Next(bs, Next(bs, b)) in bs
    requires a in bs && a != Next(bs, b) && a != Next(bs, Next(bs, b))
    ensures Prev(Absorb(bs, b), a) == Prev(bs, a)
    ensures AfterFree(Absorb(bs, b), a) == AfterFree(bs, a)
  {
    AbsorbNext(bs, first, end, b);
    if a != first { assert Next(bs, Prev(bs, a)) == a; }
  }

  /** The header of the merged block, and the word of the block after it, as Finish needs them. */
  lemma PrevFinish(g: State, m: Memory, k: Memory, b: int, p: int)
    requires WellFormed(g) && Live(g, b) && p == Prev(g.bs, b) && IsFree(g.bs, p)
    requires Next(g.bs, p) == b && Next(g.bs, b) in g.bs && Next(g.bs, b) != p
    requires HeaderAt(m, g.bs, p) && HeadersKept(g.bs, m, k, {p})
    requires IsSize(g.bs[p].size) && IsSize(g.bs[b].size)
    requires SizeWord(k, p) == Word(g.bs[p].size + g.bs[b].size + BHDR_OVERHEAD, true, AfterFree(g.bs, p))
    requires PrevHdr(k, p) == PrevHdr(m, p)
    ensures var t := Absorb(g.bs, p);
      && IsFree(t, p) && IsSize(t[p].size) && Next(t, p) == Next(g.bs, b) && Prev(t, Next(t, p)) == p
      && Next(t, p) in t && t[Next(t, p)].size == g.bs[Next(g.bs, b)].size
      && t[Next(t, p)].free == g.bs[Next(g.bs, b)].free
      && SizeWord(k, p) == Word(t[p].size, true, AfterFree(g.bs, p)) && HeaderAt(k, t, p)
      && SizeWord(k, Next(t, p)) == SizeWord(m, Next(g.bs, b))
  {
    AbsorbNext(g.bs, g.first, g.end, p);
    AbsorbTiled(g.bs, g.first, g.end, p);
    SizesFit(Absorb(g.bs, p), g.first, g.end, p);
    AbsorbAfter(g.bs, g.first, g.end, p, p);
  }

  lemma MarkedHeaders(m: Memory, bs: Blocks, first: int, end: int, b: int)
    requires Tiled(bs, first, end) && b in bs && b != end && Headers(m, bs, {b, Next(bs, b)})
    ensures Headers(m, Mark(bs, b, true), {b, Next(bs, b)})
    ensures AfterFree(Mark(bs, b, true), b) == AfterFree(bs, b)
  {
    var t := Mark(bs, b, true);
    assert Next(bs, b) in bs && Next(bs, b) > b;
    MarkAfter(bs, first, end, b, true, b);
    forall a {:trigger HeaderAt(m, t, a)} | a in t && a !in {b, Next(bs, b)}
      ensures HeaderAt(m, t, a)
    {
      assert HeaderAt(m, bs, a);
      MarkAfter(bs, first, end, b, true, a);
    }
  }

  lemma UncutHeaders(m: Memory, g: State, b: int)
    requires Tiled(g.bs, g.first, g.end) && Live(g, b) && Next(g.bs, b) in g.bs && !g.bs[Next(g.bs, b)].free
    requires Headers(m, g.bs, {b, Next(g.bs, b)})
    requires g.bs[b].size >= 0 && SizeWord(m, b) == Word(g.bs[b].size, false, AfterFree(g.bs, b))
    requires AfterFree(g.bs, b) ==> PrevHdr(m, b) == g.bs[b].prev
    requires g.bs[Next(g.bs, b)].size >= 0 && SizeWord(m, Next(g.bs, b)) == Word(g.bs[Next(g.bs, b)].size, false, false)
    ensures Headers(m, g.bs, {})
  {
    assert Prev(g.bs, Next(g.bs, b)) == b;
    assert HeaderAt(m, g.bs, b) && HeaderAt(m, g.bs, Next(g.bs, b));
    PatchHeaders(m, m, g.bs, b, Next(g.bs, b));
  }

  lemma KeepHeadersBut(bs: Blocks, m: Memory, k: Memory, x: int, y: int)
    requires Headers(m, bs, {x, y}) && HeadersKept(bs, m, k, {x, y})
    ensures Headers(k, bs, {x, y})
  {
    forall a {:trigger HeaderAt(k, bs, a)} | a in bs && a !in {x, y}
      ensures HeaderAt(k, bs, a)
    {
      assert HeaderAt(m, bs, a);
    }
  }

  /** The headers process_area writes: the sentinel already says that the block before it is free. */
  ghost predicate AreaHeaders(m: Memory, h: State) {
    var b := h.first + 2 * BHDR_OVERHEAD;
    && h.end - b - BHDR_OVERHEAD >= 0
    && SizeWord(m, h.first) == Word(MIN_BLOCK_SIZE, false, false)
    && SizeWord(m, b) == Word(h.end - b - BHDR_OVERHEAD, false, false)
    && SizeWord(m, h.end) == Word(0, false, true) && PrevHdr(m, h.end) == b
  }

  lemma AreaStored(m: Memory, ib: int, s: nat)
    requires s >= MIN_BLOCK_SIZE
    ensures var b := ib + 16; var lb := b + 8 + s;
      var k := m[ib + 4 := 8][b + 4 := s][b + 8 := 0][b + 12 := 0][lb := b][lb + 4 := 2][ib + 12 := 0][ib + 8 := lb];
      && SizeWord(k, ib) == 8 && SizeWord(k, b) == s
      && SizeWord(k, lb) == 2 && PrevHdr(k, lb) == b
    requires ib > 0
  {
  }

  /** The size words of the block of the area information and of a block of size s, and its free pointers. */
  function BlocksPut(m: Memory, ib: int, s: nat): Memory
    requires ib > 0
  {
    m[ib + 4 := 8][ib + 20 := s][ib + 24 := 0][ib + 28 := 0]
  }

  /** What process_area stores are the headers of one used block, between the area information and the sentinel. */
  lemma AreaIs(m: Memory, h: State, s: nat)
    requires h.first > 0 && s >= MIN_BLOCK_SIZE && h.end == h.first + 2 * BHDR_OVERHEAD + BHDR_OVERHEAD + s
    ensures var ib := h.first; var b, lb := ib + 16, ib + 24 + s;
      AreaHeaders(BlocksPut(m, ib, s)[lb := b][lb + 4 := 2][ib + 12 := 0][ib + 8 := lb], h)
  {
    AreaStored(m, h.first, s);
  }

  lemma RawHeaders(m: Memory, first: int, end: int)
    requires IsArea(first, end) && AreaHeaders(m, Raw(first, end))
    ensures var h, b := Raw(first, end), first + 2 * BHDR_OVERHEAD;
      Next(h.bs, b) == end && Headers(m, h.bs, {end}) && AllThreaded(m, h.ls) && Unrepeated(h.ls)
  {
    var h, b := Raw(first, end), first + 2 * BHDR_OVERHEAD;
    assert HeaderAt(m, h.bs, first) && HeaderAt(m, h.bs, b);
    assert forall a :: a in h.bs ==> a == first || a == b || a == end;
  }

  // ---------- payloads ----------

  /** Every payload byte of a live block, other than b, is as before. */
  ghost predicate SameLivePayload(g: State, m: Memory, k: Memory, b: int) {
    forall a, w {:trigger Live(g, a), Rd(k, w)} ::
      Live(g, a) && a != b && a + 8 <= w < Next(g.bs, a) ==> Rd(k, w) == Rd(m, w)
  }

  lemma LivePayload(g: State, t: State, m: Memory, k: Memory, b: int)
    requires SamePayload(t.bs, m, k) && SameLive(g, t, b)
    ensures SameLivePayload(g, m, k, b)
  {
    forall a, w {:trigger Live(g, a), Rd(k, w)} | Live(g, a) && a != b && a + 8 <= w < Next(g.bs, a)
      ensures Rd(k, w) == Rd(m, w)
    {
      assert Live(t, a) && Next(t.bs, a) == Next(g.bs, a);
    }
  }

  lemma LivePayloadTrans(g: State, m: Memory, k: Memory, l: Memory, b: int)
    requires SameLivePayload(g, m, k, b) && SameLivePayload(g, k, l, b)
    ensures SameLivePayload(g, m, l, b)
  {
    forall a, w {:trigger Live(g, a), Rd(l, w)} | Live(g, a) && a != b && a + 8 <= w < Next(g.bs, a)
      ensures Rd(l, w) == Rd(m, w)
    {
      assert Rd(k, w) == Rd(m, w);
    }
  }

  lemma LivePayloadVia(h: State, g: State, m: Memory, k: Memory, b: int)
    requires SameLive(h, g, b) && SameLivePayload(g, m, k, b)
    ensures SameLivePayload(h, m, k, b)
  {
    forall a, w {:trigger Live(h, a), Rd(k, w)} | Live(h, a) && a != b && a + 8 <= w < Next(h.bs, a)
      ensures Rd(k, w) == Rd(m, w)
    {
      assert Live(g, a) && Next(g.bs, a) == Next(h.bs, a);
    }
  }

  /** The payloads over the first half of free_ex... */
  lemma MarkedPayload(h: State, m: Memory, k: Memory, l: Memory, b: int)
    requires Live(h, b)
    requires SamePayload(Mark(h.bs, b, true), m, k) && SamePayload(Mark(h.bs, b, true), k, l)
    ensures SameLivePayload(h, m, l, b)
  {
    var t := h.(bs := Mark(h.bs, b, true));
    LivePayload(h, t, m, k, b);
    LivePayload(h, t, k, l, b);
    LivePayloadTrans(h, m, k, l, b);
  }

  /** ...and over the whole of it. */
  lemma FreedPayload(h: State, g: State, m: Memory, k: Memory, l: Memory, b: int)
    requires SameLive(h, g, b) && SameLivePayload(h, m, k, b) && SameLivePayload(g, k, l, b)
    ensures SameLivePayload(h, m, l, b)
  {
    LivePayloadVia(h, g, k, l, b);
    LivePayloadTrans(h, m, k, l, b);
  }

  /** A store to the free pointers of a block on no list. */
  lemma LinkStoreOff(bs: Blocks, m: Memory, ls: Lists, x: int, w: int, v: nat)
    requires Laid(bs) && IsFree(bs, x) && (w == x + 8 || w == x + 12)
    requires AllThreaded(m, ls) && Members(bs, ls)
    requires forall c {:trigger ls[c]} :: c in ls ==> x !in ls[c]
    ensures AllThreaded(m[w := v], ls) && SameHeaders(bs, m, m[w := v]) && SamePayload(bs, m, m[w := v])
  {
    LinkStore(bs, m, x, w, v);
    var k := m[w := v];
    forall c {:trigger ls[c]} | c in ls
      ensures Threaded(k, ls[c])
    {
      forall i | 0 <= i < |ls[c]|
        ensures SameLinks(m, k, ls[c][i])
      {
        assert ls[c][i] in ls[c];
      }
      SameThreaded(m, k, ls[c]);
    }
  }

  // ---------- contents ----------

  /** The payload word at offset i of the block at b. */
  function Payload(m: Memory, b: int, i: int): nat {
    Rd(m, b + 8 + i)
  }

  lemma OneWord(m: Memory, b: int, i: int, v: nat)
    ensures Payload(m[b + 8 + i := v], b, i) == v
    ensures forall j :: j != i ==> Payload(m[b + 8 + i := v], b, j) == Payload(m, b, j)
  {
  }

  /** The first n payload bytes at q are those that were at b. */
  ghost predicate Moved(m: Memory, b: int, k: Memory, q: int, n: int) {
    forall i {:trigger Payload(k, q, i)} {:trigger Payload(m, b, i)} :: 0 <= i < n && i % 4 == 0 ==>
      Payload(k, q, i) == Payload(m, b, i)
  }

  lemma MovedTrans(m: Memory, b: int, k: Memory, q: int, l: Memory, r: int, n: int)
    requires Moved(m, b, k, q, n) && Moved(k, q, l, r, n)
    ensures Moved(m, b, l, r, n)
  {
  }

  lemma KeptInPlace(t: Blocks, m: Memory, k: Memory, b: int, n: int)
    requires SamePayload(t, m, k) && b in t && !t[b].free && n <= t[b].size
    ensures Moved(m, b, k, b, n)
  {
    assert Next(t, b) == b + 8 + t[b].size;
  }

  /** The payloads over a resize in place: b keeps its first n bytes. */
  lemma InPlacePayload(h: State, t: State, m: Memory, k: Memory, l: Memory, b: int, n: int)
    requires SamePayload(h.bs, m, k) && SamePayload(t.bs, k, l)
    requires SameLive(h, t, b) && Live(h, b) && Live(t, b) && n <= h.bs[b].size && n <= t.bs[b].size
    ensures SameLivePayload(h, m, l, b) && Moved(m, b, l, b, n)
  {
    LivePayload(h, h, m, k, b);
    LivePayload(h, t, k, l, b);
    LivePayloadTrans(h, m, k, l, b);
    KeptInPlace(h.bs, m, k, b, n);
    KeptInPlace(t.bs, k, l, b, n);
    MovedTrans(m, b, k, b, l, b, n);
  }

  lemma GrowPayload(h: State, g: State, t: State, m: Memory, k: Memory, l: Memory, u: Memory, b: int, n: int)
    requires SamePayload(h.bs, m, k) && SamePayload(g.bs, k, l) && SamePayload(t.bs, l, u)
    requires SameLive(h, g, b) && SameLive(g, t, b) && Live(h, b) && Live(g, b) && Live(t, b)
    requires n <= h.bs[b].size && n <= g.bs[b].size && n <= t.bs[b].size
    ensures SameLivePayload(h, m, u, b) && Moved(m, b, u, b, n)
  {
    InPlacePayload(h, g, m, k, l, b, n);
    SameLiveTrans(h, g, t, b);
    LivePayload(h, t, l, u, b);
    LivePayloadTrans(h, m, l, u, b);
    KeptInPlace(t.bs, l, u, b, n);
    MovedTrans(m, b, l, b, u, b, n);
  }

  lemma LiveIsMoved(g: State, m: Memory, k: Memory, x: int, a: int, n: int)
    requires SameLivePayload(g, m, k, x) && Live(g, a) && a != x && n <= g.bs[a].size
    ensures Moved(m, a, k, a, n)
  {
    assert Next(g.bs, a) == a + 8 + g.bs[a].size;
  }

  /** The payloads over a move: malloc_ex from h to g, memcpy from b to q, free_ex of b. */
  lemma MovePayload(h: State, g: State, m: Memory, k: Memory, l: Memory, u: Memory, b: int, q: int, n: int)
    requires SameLive(h, g, q) && !Live(h, q) && Live(g, q) && Live(h, b)
    requires SameLivePayload(h, m, k, 0) && !Live(h, 0)
    requires Moved(k, b, l, q, n) && SameLivePayload(g, k, l, q) && SameLivePayload(g, l, u, b)
    requires n <= h.bs[b].size && n <= g.bs[q].size
    ensures SameLivePayload(h, m, u, b) && Moved(m, b, u, q, n)
  {
    LiveIsMoved(h, m, k, 0, b, n);
    LiveIsMoved(g, l, u, b, q, n);
    MovedTrans(m, b, k, b, l, q, n);
    MovedTrans(m, b, l, q, u, q, n);
    forall a, w {:trigger Live(h, a), Rd(u, w)} | Live(h, a) && a != b && a + 8 <= w < Next(h.bs, a)
      ensures Rd(u, w) == Rd(m, w)
    {
      assert Live(g, a) && Next(g.bs, a) == Next(h.bs, a);
      assert Rd(k, w) == Rd(m, w);
      assert Rd(l, w) == Rd(k, w);
    }
  }

  // ---------- memcpy of a payload ----------

  /** The words of memory after memcpy(dst, src, n) for a multiple n of 4: a word-by-word copy. */
  function CopyWords(m: Memory, dst: int, src: int, n: nat): Memory
    requires n % 4 == 0
  {
    if n == 0 then m else
      var k := CopyWords(m, dst, src, n - 4);
      k[dst + (n - 4) := Rd(k, src + (n - 4))]
  }

  /** Copied into a live block from another, it changes the payload of that block only. */
  lemma {:induction false} CopyFrame(bs: Blocks, m: Memory, ls: Lists, q: int, b: int, n: nat)
    requires Laid(bs) && AllThreaded(m, ls) && Members(bs, ls) && n % 4 == 0
    requires q in bs && b in bs && q != b && !bs[q].free && !bs[b].free && n <= bs[q].size && n <= bs[b].size
    ensures var k := CopyWords(m, q + 8, b + 8, n);
      && AllThreaded(k, ls) && SameHeaders(bs, m, k) && Moved(m, b, k, q, n)
      && (forall a, w {:trigger Next(bs, a), Rd(k, w)} ::
           a in bs && a != q && a + 8 <= w < Next(bs, a) ==> Rd(k, w) == Rd(m, w))
  {
    if n > 0 {
      CopyFrame(bs, m, ls, q, b, n - 4);
      var k := CopyWords(m, q + 8, b + 8, n - 4);
      assert Next(bs, b) == b + 8 + bs[b].size;
      PayloadStore(bs, k, ls, q, n - 4, Rd(k, b + 8 + (n - 4)));
      var l := CopyWords(m, q + 8, b + 8, n);
      assert forall i {:trigger Payload(l, q, i)} ::
        0 <= i < n && i % 4 == 0 ==> (i < n - 4 ==> Payload(l, q, i) == Payload(k, q, i));
      assert Payload(l, q, n - 4) == Payload(m, b, n - 4);
    }
  }

  lemma PayloadStore(bs: Blocks, m: Memory, ls: Lists, q: int, i: int, v: nat)
    requires Laid(bs) && AllThreaded(m, ls) && Members(bs, ls)
    requires q in bs && !bs[q].free && 0 <= i < bs[q].size && i % 4 == 0
    ensures var k := m[q + 8 + i := v];
      && AllThreaded(k, ls) && SameHeaders(bs, m, k)
      && (forall a, w {:trigger Next(bs, a), Rd(k, w)} ::
           a in bs && a != q && a + 8 <= w < Next(bs, a) ==> Rd(k, w) == Rd(m, w))
  {
    var k := m[q + 8 + i := v];
    assert Next(bs, q) == q + 8 + bs[q].size;
    forall y {:trigger PrevHdr(k, y)} | y in bs
      ensures PrevHdr(k, y) == PrevHdr(m, y) && SizeWord(k, y) == SizeWord(m, y)
      ensures y != q ==> SameLinks(m, k, y)
    {
      if y > q { assert Next(bs, q) <= y; }
    }
    forall c {:trigger ls[c]} | c in ls
      ensures Threaded(k, ls[c])
    {
      forall j | 0 <= j < |ls[c]|
        ensures SameLinks(m, k, ls[c][j])
      {
        assert ls[c][j] in ls[c];
        assert PrevHdr(k, ls[c][j]) == PrevHdr(m, ls[c][j]);
      }
      SameThreaded(m, k, ls[c]);
    }
    forall a, w {:trigger Next(bs, a), Rd(k, w)} | a in bs && a != q && a + 8 <= w < Next(bs, a)
      ensures Rd(k, w) == Rd(m, w)
    {
      if a > q { assert Next(bs, q) <= a; } else { assert Next(bs, a) <= q; }
    }
  }
}
