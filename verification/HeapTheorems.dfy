/** What the allocator promises, for every heap and every run of calls. */
module HeapTheorems {
  import opened Words
  import opened Mapping
  import opened Tiling
  import opened Heap
  import opened Sequences

  // ---------- the search is exact ----------

  lemma {:induction false} SomeFit(ls: Lists, from: Class, c: Class)
    requires AllClasses(ls) && InMatrix(from) && c in ls && !Before(c, from) && ls[c] != []
    ensures Fit(ls, from).Some?
    decreases c.fl, c.sl
  {
    if !FirstFit(ls, from, c) {
      var d :| d in ls && Before(d, c) && !Before(d, from) && ls[d] != [];
      SomeFit(ls, from, d);
    }
  }

  /** malloc_ex returns NULL iff no free block holds the size MAPPING_SEARCH rounds the request to. */
  lemma MallocFailsExactly(h: State, size: nat)
    requires WellFormed(h) && size <= MAX_REQUEST
    ensures Malloc(h, size).1.None? <==>
      forall a {:trigger IsFree(h.bs, a)} :: IsFree(h.bs, a) ==> h.bs[a].size < MappingSearch(Request(size)).0
  {
    var n := Request(size);
    hide MappingSearch, MappingInsert, Request;
    var c := Fit(h.ls, MappingSearch(n).1);
    assert Malloc(h, size).1.None? <==> c.None?;
    if c.None? {
      hide Malloc, Fit, WellFormed;
      forall a {:trigger IsFree(h.bs, a)} | IsFree(h.bs, a)
        ensures h.bs[a].size < MappingSearch(n).0
      {
        TooSmall(h, n, a);
      }
    } else {
      FitIsLargeEnough(h, n, c.value);
    }
  }

  /** When no class fits, every free block is too small. */
  lemma TooSmall(h: State, n: nat, a: int)
    requires WellFormed(h) && MIN_BLOCK_SIZE <= n <= MAX_REQUEST && n % 8 == 0
    requires Fit(h.ls, MappingSearch(n).1).None? && IsFree(h.bs, a)
    ensures h.bs[a].size < MappingSearch(n).0
  {
    hide MappingSearch, MappingInsert, Fit;
    HomeIsValid(h.bs, h.first, h.end, a);
    SearchOfRounded(n, h.bs[a].size);
    SearchIsValid(n);
    assert a in h.ls[Home(h.bs, a)];
    if !Before(Home(h.bs, a), MappingSearch(n).1) { SomeFit(h.ls, MappingSearch(n).1, Home(h.bs, a)); }
  }

  /** A successful malloc_ex takes the head of the first non-empty class at or after the search
      class: no free block that would do is in an earlier class. It is cut to the rounded size if the
      rest can be a block. */
  lemma MallocTakesGoodFit(h: State, size: nat)
    requires WellFormed(h) && size <= MAX_REQUEST && Malloc(h, size).1.Some?
    ensures var b := Malloc(h, size).1.value;
      && IsFree(h.bs, b) && h.ls[Home(h.bs, b)][..1] == [b]
      && forall a {:trigger IsFree(h.bs, a)} :: IsFree(h.bs, a) && h.bs[a].size >= MappingSearch(Request(size)).0
           ==> !Before(Home(h.bs, a), Home(h.bs, b))
    ensures var (g, q) := Malloc(h, size); var need := MappingSearch(Request(size)).0;
      q.value in h.bs && q.value in g.bs &&
      g.bs[q.value].size == if h.bs[q.value].size - need >= SIZEOF_BHDR then need else h.bs[q.value].size
  {
    var n := Request(size);
    hide MappingSearch, MappingInsert, Request;
    var c := Fit(h.ls, MappingSearch(n).1).value;
    assert Malloc(h, size).1.value == h.ls[c][0];
    FitIsLargeEnough(h, n, c);
    var b := h.ls[c][0];
    hide Malloc;
    forall a {:trigger IsFree(h.bs, a)} | IsFree(h.bs, a) && h.bs[a].size >= MappingSearch(n).0
      ensures !Before(Home(h.bs, a), Home(h.bs, b))
    {
      FitIsLeast(h, n, c, a);
    }
  }

  /** No large enough free block has a class before the one taken. */
  lemma FitIsLeast(h: State, n: nat, c: Class, a: int)
    requires WellFormed(h) && MIN_BLOCK_SIZE <= n <= MAX_REQUEST && n % 8 == 0
    requires FirstFit(h.ls, MappingSearch(n).1, c) && IsFree(h.bs, a) && h.bs[a].size >= MappingSearch(n).0
    ensures !Before(Home(h.bs, a), c)
  {
    hide MappingSearch, MappingInsert;
    HomeIsValid(h.bs, h.first, h.end, a);
    SearchOfRounded(n, h.bs[a].size);
    assert a in h.ls[Home(h.bs, a)];
  }

  // ---------- malloc_ex then free_ex ----------

  /** Joining what was cut restores the blocks. */
  lemma SplitThenAbsorb(bs: Blocks, first: int, end: int, b: int, n: int)
    requires Tiled(bs, first, end) && b in bs && b != end
    requires n >= MIN_BLOCK_SIZE && n % 8 == 0 && bs[b].size >= n + SIZEOF_BHDR
    ensures Next(bs, b) in bs && var t := Split(bs, b, n);
      b in t && Next(t, b) in t && Next(t, Next(t, b)) in t && Absorb(t, b) == bs
  {
    SplitNext(bs, first, end, b, n);
    assert Prev(bs, Next(bs, b)) == b;
    hide Tiled;
    var t, b2, nb := Split(bs, b, n), b + BHDR_OVERHEAD + n, Next(bs, b);
    assert t - {b2} == bs[b := bs[b].(size := n)][nb := bs[nb].(prev := b2)];
    assert t[b2].size == bs[b].size - n - BHDR_OVERHEAD;
  }

  lemma PushThenDrop(ls: Lists, c: Class, b: int)
    requires c in ls
    ensures Drop(Push(ls, c, b), c, b) == ls
  {
    assert ([b] + ls[c])[1..] == ls[c];
  }

  lemma CarveThenMerge(h: State, b: int, n: int)
    requires WellFormed(h) && Live(h, b) && !IsFree(h.bs, Next(h.bs, b))
    requires n >= MIN_BLOCK_SIZE && n % 8 == 0 && h.bs[b].size >= n + SIZEOF_BHDR
    ensures Next(h.bs, b) in h.bs && Home(Split(h.bs, b, n), b + BHDR_OVERHEAD + n) in h.ls
    ensures WellFormed(Carve(h, b, n)) && Live(Carve(h, b, n), b) && Grow(Carve(h, b, n), b) == h
  {
    CarveWellFormed(h, b, n);
    SplitNext(h.bs, h.first, h.end, b, n);
    var g, b2, nb := Carve(h, b, n), b + BHDR_OVERHEAD + n, Next(h.bs, b);
    assert IsFree(g.bs, b2);
    MergeNextWellFormed(g, b);
    SplitThenAbsorb(h.bs, h.first, h.end, b, n);
    PushThenDrop(h.ls, Home(g.bs, b2), b2);
  }

  lemma ClaimThenRelease(h: State, c: Class)
    requires WellFormed(h) && InMatrix(c) && h.ls[c] != []
    ensures var b := h.ls[c][0];
      b in h.bs && WellFormed(Claim(h, c)) && Live(Claim(h, c), b)
      && !IsFree(Claim(h, c).bs, Next(Claim(h, c).bs, b)) && Free(Claim(h, c), b) == h
  {
    var b := h.ls[c][0];
    assert b in h.ls[c];
    ClaimWellFormed(h, c);
    var g := Claim(h, c);
    assert Next(g.bs, b) == Next(h.bs, b) && !IsFree(h.bs, Next(h.bs, b));
    assert !IsFree(g.bs, Prev(g.bs, b)) by {
      assert Next(h.bs, Prev(h.bs, b)) == b;
    }
    ReleaseWellFormed(g, b);
    assert Mark(g.bs, b, true) == h.bs;
    assert h.ls[c] == [b] + g.ls[c];
    assert Release(g, b).ls == h.ls;
  }

  /** malloc_ex followed by free_ex of its result is the identity: on the tiling, on every list in
      its order, and so on both bitmaps. */
  lemma MallocThenFree(h: State, size: nat)
    requires WellFormed(h) && size <= MAX_REQUEST && Malloc(h, size).1.Some?
    ensures Free(Malloc(h, size).0, Malloc(h, size).1.value) == h
  {
    hide MappingSearch, MappingInsert, Request;
    var n := Request(size);
    var (need, from) := MappingSearch(n);
    var c := Fit(h.ls, from).value;
    FitIsLargeEnough(h, n, c);
    ClaimThenRelease(h, c);
    var g, b := Claim(h, c), h.ls[c][0];
    if g.bs[b].size - need >= SIZEOF_BHDR {
      CarveThenMerge(g, b, need);
      FreeOfGrown(Carve(g, b, need), b);
      assert Malloc(h, size).0 == Carve(g, b, need);
    } else {
      assert Malloc(h, size).0 == g;
    }
  }

  // ---------- the tiling is exact ----------

  /** The blocks from a on, as a walk over the area meets them. */
  ghost function Walk(bs: Blocks, first: int, end: int, a: int): (w: seq<int>)
    requires Tiled(bs, first, end) && a in bs
    ensures forall i {:trigger w[i]} :: 0 <= i < |w| ==> w[i] in bs
    decreases end - a
  {
    if a == end then [a] else
      assert Next(bs, a) in bs && Next(bs, a) > a;
      [a] + Walk(bs, first, end, Next(bs, a))
  }

  function TotalSize(bs: Blocks, w: seq<int>): int
    requires forall i {:trigger w[i]} :: 0 <= i < |w| ==> w[i] in bs
  {
    if w == [] then 0 else
      BHDR_OVERHEAD + bs[w[0]].size + TotalSize(bs, w[1..])
  }

  /** Conservation: headers and payloads add up to the area, whatever has been called. */
  lemma {:induction false} SizesAddUp(bs: Blocks, first: int, end: int, a: int)
    requires Tiled(bs, first, end) && a in bs
    ensures TotalSize(bs, Walk(bs, first, end, a)) == end + BHDR_OVERHEAD - a
    decreases end - a
  {
    if a != end {
      assert Next(bs, a) in bs && Next(bs, a) > a;
      SizesAddUp(bs, first, end, Next(bs, a));
      assert Walk(bs, first, end, a)[1..] == Walk(bs, first, end, Next(bs, a));
    }
  }

  /** The walk from the first block meets every block. */
  lemma {:induction false} WalkMeetsAll(bs: Blocks, first: int, end: int, a: int, b: int)
    requires Tiled(bs, first, end) && a in bs && b in bs && a <= b
    ensures b in Walk(bs, first, end, a)
    decreases end - a
  {
    if a != b {
      assert Next(bs, a) in bs && Next(bs, a) <= b;
      WalkMeetsAll(bs, first, end, Next(bs, a), b);
    }
  }

  /** Every byte of the area is in exactly one block. */
  lemma {:induction false} CoveredOnce(bs: Blocks, first: int, end: int, a: int, w: int) returns (b: int)
    requires Tiled(bs, first, end) && a in bs && a <= w < end + BHDR_OVERHEAD
    ensures b in bs && b <= w < Next(bs, b)
    ensures forall c {:trigger Next(bs, c)} :: c in bs && c <= w < Next(bs, c) ==> c == b
    decreases end - a
  {
    if w < Next(bs, a) {
      b := a;
    } else {
      assert Next(bs, a) in bs;
      b := CoveredOnce(bs, first, end, Next(bs, a), w);
    }
  }

  // ---------- everything freed ----------

  /** With nothing live the heap is what init_memory_pool left: one free block of the initial size
      on its list, whatever the calls were and in whatever order the blocks were freed. */
  lemma AllFreed(h: State)
    requires WellFormed(h) && IsArea(h.first, h.end) && forall b :: !Live(h, b)
    ensures h == Initial(h.first, h.end)
  {
    hide WellFormed, Initial, Live, IsArea;
    AllFreedBlocks(h);
    InitialShape(h.first, h.end);
    OnlyFree(h);
    SameIndex(h, Initial(h.first, h.end), h.first + 2 * BHDR_OVERHEAD);
  }

  /** The block after the area information is the only free one. */
  lemma OnlyFree(h: State)
    requires IsArea(h.first, h.end)
    requires var b := h.first + 2 * BHDR_OVERHEAD;
      h.bs == map[h.first := Block(MIN_BLOCK_SIZE, false, 0), b := Block(h.end - b - BHDR_OVERHEAD, true, h.first),
                  h.end := Block(0, false, b)]
    ensures forall a {:trigger IsFree(h.bs, a)} :: IsFree(h.bs, a) <==> a == h.first + 2 * BHDR_OVERHEAD
  {
    var b := h.first + 2 * BHDR_OVERHEAD;
    assert h.bs[b].free && !h.bs[h.first].free && !h.bs[h.end].free;
  }

  /** With one free block the lists are determined. */
  lemma SameIndex(h: State, i: State, b: int)
    requires WellFormed(h) && WellFormed(i) && h.bs == i.bs
    requires forall a {:trigger IsFree(h.bs, a)} :: IsFree(h.bs, a) <==> a == b
    ensures h.ls == i.ls
  {
    forall c | InMatrix(c)
      ensures h.ls[c] == i.ls[c]
    {
      OneFree(h, b, c);
      OneFree(i, b, c);
    }
  }

  lemma AllFreedBlocks(h: State)
    requires WellFormed(h) && IsArea(h.first, h.end) && forall b :: !Live(h, b)
    ensures var b := h.first + 2 * BHDR_OVERHEAD;
      h.bs == map[h.first := Block(MIN_BLOCK_SIZE, false, 0), b := Block(h.end - b - BHDR_OVERHEAD, true, h.first),
                  h.end := Block(0, false, b)]
  {
    var b := Next(h.bs, h.first);
    assert b in h.bs && Prev(h.bs, b) == h.first;
    assert !Live(h, b);
    var e := Next(h.bs, b);
    assert e in h.bs && Prev(h.bs, e) == b && !IsFree(h.bs, e) && !Live(h, e);
    forall a | a in h.bs
      ensures a == h.first || a == b || a == e
    {
      if h.first < a { assert b <= a; }
      if b < a { assert e <= a; }
    }
  }

  lemma Repeats(s: seq<int>, b: int)
    requires forall i :: 0 <= i < |s| ==> s[i] == b
    ensures |s| >= 2 ==> !Distinct(s)
  {
    if |s| >= 2 { assert s[0] == s[1]; }
  }

  /** A heap whose only free block is b has it on one list and the others empty. */
  lemma OneFree(h: State, b: int, c: Class)
    requires WellFormed(h) && InMatrix(c) && forall a {:trigger IsFree(h.bs, a)} :: IsFree(h.bs, a) <==> a == b
    ensures h.ls[c] == if Home(h.bs, b) == c then [b] else []
  {
    var s := h.ls[c];
    assert IsFree(h.bs, b);
    forall i | 0 <= i < |s|
      ensures s[i] == b && Home(h.bs, b) == c
    {
      assert s[i] in h.ls[c] && IsFree(h.bs, s[i]);
    }
    assert |s| > 0 ==> s[0] == b && Home(h.bs, b) == c;
    Repeats(s, b);
    if Home(h.bs, b) == c {
      assert b in s;
      assert s == [b];
    }
  }

  // ---------- every run ----------

  datatype Call = MallocCall(size: nat) | FreeCall(b: int) | ReallocCall(b: int, size: nat)

  /** The heap, and for each block handed out the size that was asked for. */
  datatype Client = Client(h: State, asked: map<int, nat>)

  ghost predicate Legal(k: Client, c: Call)
  {
    match c
    case MallocCall(size) => size <= MAX_REQUEST
    case FreeCall(b) => Live(k.h, b)
    case ReallocCall(b, size) =>
      Live(k.h, b) && 0 < size <= WORD_MAX - 7 && (InPlace(k.h, b, Request(size)) || size <= MAX_REQUEST)
  }

  ghost function Do(k: Client, c: Call): (l: Client)
    requires WellFormed(k.h) && Legal(k, c)
    ensures WellFormed(l.h)
  {
    match c
    case MallocCall(size) =>
      var (h, b) := Malloc(k.h, size);
      if b.None? then k else Client(h, k.asked[b.value := size])
    case FreeCall(b) =>
      Client(Free(k.h, b), k.asked - {b})
    case ReallocCall(b, size) =>
      var (h, q) := Realloc(k.h, b, size);
      if q.None? then k else Client(h, (k.asked - {b})[q.value := size])
  }

  /** Exactly the live blocks are on the client's account, and each is large enough. */
  ghost predicate Accounted(k: Client) {
    && (forall b {:trigger Live(k.h, b)} {:trigger b in k.asked} :: Live(k.h, b) <==> b in k.asked)
    && (forall b {:trigger k.asked[b]} :: b in k.asked ==> k.asked[b] <= k.h.bs[b].size)
  }

  /** Every call keeps the area fixed and the account exact. */
  lemma DoKeeps(k: Client, c: Call)
    requires WellFormed(k.h) && Accounted(k) && Legal(k, c)
    ensures Accounted(Do(k, c))
    ensures Do(k, c).h.first == k.h.first && Do(k, c).h.end == k.h.end
  {
    hide WellFormed, Malloc, Free, Realloc, InPlace;
    match c
    case MallocCall(size) =>
      MallocKeeps(k.h, size);
    case FreeCall(b) =>
      FreeKeeps(k.h, b);
    case ReallocCall(b, size) =>
      ReallocKeeps(k.h, b, size);
  }

  lemma FreeKeeps(h: State, b: int)
    requires WellFormed(h) && Live(h, b)
    ensures SameLive(h, Free(h, b), b) && !Live(Free(h, b), b)
  {
  }

  lemma MallocKeeps(h: State, size: nat)
    requires WellFormed(h) && size <= MAX_REQUEST
    ensures var (g, q) := Malloc(h, size);
      && (q.None? ==> g == h)
      && (q.Some? ==> SameLive(h, g, q.value) && !Live(h, q.value) && Live(g, q.value) && size <= g.bs[q.value].size)
  {
  }

  /** realloc_ex: the new block holds the request, every other live block stays as it is, and on
      failure, which is possible only when the block cannot grow in place, nothing changes. */
  lemma ReallocKeeps(h: State, b: int, size: nat)
    requires WellFormed(h) && Live(h, b) && size <= WORD_MAX - 7
    requires InPlace(h, b, Request(size)) || size <= MAX_REQUEST
    ensures var (g, q) := Realloc(h, b, size);
      && g.first == h.first && g.end == h.end
      && (q.None? ==> g == h && h.bs[b].size < Request(size))
      && (q.None? && IsFree(h.bs, Next(h.bs, b)) ==> h.bs[b].size + h.bs[Next(h.bs, b)].size < Request(size))
      && (q.Some? ==> Live(g, q.value) && Request(size) <= g.bs[q.value].size)
      && (q.Some? ==> q.value == b || (!Live(h, q.value) && !Live(g, b)))
      && (q.Some? ==> forall a {:trigger Live(h, a)} {:trigger Live(g, a)} :: a != b && a != q.value ==>
           (Live(g, a) <==> Live(h, a)) && (Live(h, a) ==> g.bs[a].size == h.bs[a].size))
  {
    var n := Request(size);
    if InPlace(h, b, n) {
      SameLiveTrans(h, Grow(h, b), Trim(Grow(h, b), b, n), b);
    }
  }

  /** What the block can come to without moving: its own size, with the block after it when that is free. */
  function Reach(h: State, b: int): int
    requires b in h.bs
  {
    var n := Next(h.bs, b);
    if IsFree(h.bs, n) then h.bs[b].size + BHDR_OVERHEAD + h.bs[n].size else h.bs[b].size
  }

  /** realloc_ex leaves the block where it is exactly if the rounded request is not above its size, or the
      next block is free and the request is not above the two sizes together. It returns NULL exactly if
      neither holds and no free block is as large as the size MAPPING_SEARCH rounds the request to.
      In place, what is too much is cut off if it can hold a block of its own, so that at most 8 bytes too
      many stay; a block that moves is as large as malloc_ex makes it. */
  lemma ReallocOutcome(h: State, b: int, size: nat)
    requires WellFormed(h) && Live(h, b) && size <= WORD_MAX - 7
    requires size <= MAX_REQUEST || Request(size) <= h.bs[b].size ||
      (IsFree(h.bs, Next(h.bs, b)) && Request(size) <= h.bs[b].size + h.bs[Next(h.bs, b)].size)
    ensures var n, next, (g, q) := Request(size), Next(h.bs, b), Realloc(h, b, size);
      && (q == Some(b) <==> n <= h.bs[b].size || (IsFree(h.bs, next) && n <= h.bs[b].size + h.bs[next].size))
      && (q == None <==>
           && h.bs[b].size < n && (IsFree(h.bs, next) ==> h.bs[b].size + h.bs[next].size < n) && n <= WORD_MAX
           && forall a {:trigger IsFree(h.bs, a)} :: IsFree(h.bs, a) ==> h.bs[a].size < MappingSearch(n).0)
      && (q == Some(b) ==>
           (b in g.bs && g.bs[b].size == if Reach(h, b) - n >= SIZEOF_BHDR then n else Reach(h, b)))
      && (q == Some(b) ==> g.bs[b].size <= n + 8)
      && (q.Some? && q.value != b ==>
           (q.value in g.bs && n <= WORD_MAX && 0 <= g.bs[q.value].size - MappingSearch(n).0 <= 8))
  {
    var n := Request(size);
    LastRequest(size);
    if !InPlace(h, b, n) {
      hide Malloc, MappingSearch, WellFormed, Live, IsFree, Free;
      MallocFailsExactly(h, n);
    }
  }

  ghost predicate Runs(k: Client, cs: seq<Call>)
    requires WellFormed(k.h)
    decreases |cs|
  {
    cs == [] || (Legal(k, cs[0]) && Runs(Do(k, cs[0]), cs[1..]))
  }

  ghost function After(k: Client, cs: seq<Call>): (l: Client)
    requires WellFormed(k.h) && Runs(k, cs)
    ensures WellFormed(l.h)
    decreases |cs|
  {
    if cs == [] then k else After(Do(k, cs[0]), cs[1..])
  }

  lemma {:induction false} RunKeeps(k: Client, cs: seq<Call>)
    requires WellFormed(k.h) && Accounted(k) && Runs(k, cs)
    ensures Accounted(After(k, cs))
    ensures After(k, cs).h.first == k.h.first && After(k, cs).h.end == k.h.end
    decreases |cs|
  {
    if cs != [] {
      DoKeeps(k, cs[0]);
      RunKeeps(Do(k, cs[0]), cs[1..]);
    }
  }

  /** The payload at b is in the area, aligned like it, and apart from every other payload. */
  ghost predicate Placed(h: State, b: int) {
    && h.first + 16 <= b + 8 < Next(h.bs, b) <= h.end
    && (b + 8 - h.first) % 8 == 0
    && forall a {:trigger Live(h, a)} :: Live(h, a) && a != b ==> Next(h.bs, a) <= b || Next(h.bs, b) <= a
  }

  lemma LiveIsPlaced(h: State, b: int)
    requires WellFormed(h) && Live(h, b)
    ensures Placed(h, b)
  {
    assert Next(h.bs, h.first) <= b && Next(h.bs, b) <= h.end;
    forall a {:trigger Live(h, a)} | Live(h, a) && a != b
      ensures Next(h.bs, a) <= b || Next(h.bs, b) <= a
    {
      if a < b { assert Next(h.bs, a) <= b; } else { assert Next(h.bs, b) <= a; }
    }
  }

  /** Over every run from a fresh pool: every block handed out and not given back is placed, and as
      large as asked for; block sizes and headers add up to the area; and once all is freed the heap
      is the initial one. */
  lemma EveryRun(first: int, end: int, cs: seq<Call>)
    requires IsArea(first, end) && Runs(Client(Initial(first, end), map[]), cs)
    ensures var k := After(Client(Initial(first, end), map[]), cs);
      && k.h.first == first && k.h.end == end
      && (forall b {:trigger b in k.asked} :: b in k.asked ==> Placed(k.h, b) && b + 8 + k.asked[b] <= Next(k.h.bs, b))
      && TotalSize(k.h.bs, Walk(k.h.bs, first, end, first)) == end + BHDR_OVERHEAD - first
      && (k.asked == map[] ==> k.h == Initial(first, end))
  {
    var k0 := Client(Initial(first, end), map[]);
    RunKeeps(k0, cs);
    var k := After(k0, cs);
    hide Do, Initial, Runs, After;
    SizesAddUp(k.h.bs, first, end, first);
    forall b {:trigger b in k.asked} | b in k.asked
      ensures Placed(k.h, b) && b + 8 + k.asked[b] <= Next(k.h.bs, b)
    {
      assert Live(k.h, b);
      LiveIsPlaced(k.h, b);
    }
    if k.asked == map[] {
      forall b
        ensures !Live(k.h, b)
      {
        assert b !in k.asked;
      }
      AllFreed(k.h);
    }
  }
}
