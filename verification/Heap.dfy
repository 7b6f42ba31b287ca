/** The allocator's state as values: the tiling and the free lists, and the changes to them
    that the calls of lib/tlsf/tlsf.c are made of. */
module Heap {
  import opened Words
  import opened Mapping
  import opened Tiling
  import opened Sequences

  /** The free list of each class, head first. */
  type Lists = map<Class, seq<int>>

  datatype State = State(first: int, end: int, bs: Blocks, ls: Lists)

  /** The class MAPPING_INSERT gives for a block's size. */
  function Home(bs: Blocks, a: int): Class {
    if a in bs && 0 <= bs[a].size <= WORD_MAX then MappingInsert(bs[a].size) else Class(0, 0)
  }

  ghost predicate AllClasses(ls: Lists) {
    forall c {:trigger c in ls} {:trigger InMatrix(c)} :: c in ls <==> InMatrix(c)
  }

  /** Only free blocks are listed, each under its own class... */
  ghost predicate Members(bs: Blocks, ls: Lists) {
    forall c, x {:trigger x in ls[c]} :: c in ls && x in ls[c] ==> IsFree(bs, x) && Home(bs, x) == c
  }

  /** ...every free block is listed... */
  ghost predicate Complete(bs: Blocks, ls: Lists) {
    forall x {:trigger IsFree(bs, x)} :: IsFree(bs, x) ==> Home(bs, x) in ls && x in ls[Home(bs, x)]
  }

  /** ...and listed once. */
  ghost predicate Unrepeated(ls: Lists) {
    forall c {:trigger ls[c]} :: c in ls ==> Distinct(ls[c])
  }

  ghost predicate Indexed(bs: Blocks, ls: Lists) {
    AllClasses(ls) && Members(bs, ls) && Complete(bs, ls) && Unrepeated(ls)
  }

  ghost predicate WellFormed(h: State) {
    && Tiled(h.bs, h.first, h.end)
    && Coalesced(h.bs)
    && h.end - h.first < 0x4000_0000
    && Indexed(h.bs, h.ls)
  }

  /** A block handed out by the allocator. */
  ghost predicate Live(h: State, b: int) {
    b in h.bs && b != h.first && b != h.end && !h.bs[b].free
  }

  // ---------- list operations ----------

  function Push(ls: Lists, c: Class, b: int): Lists
    requires c in ls
  {
    ls[c := [b] + ls[c]]
  }

  function Drop(ls: Lists, c: Class, b: int): Lists
    requires c in ls
  {
    ls[c := Without(ls[c], b)]
  }

  // ---------- the four steps ----------

  /** Take the head of a class off its list and mark it used. */
  function Claim(h: State, c: Class): State
    requires c in h.ls && h.ls[c] != [] && h.ls[c][0] in h.bs
  {
    h.(bs := Mark(h.bs, h.ls[c][0], false), ls := h.ls[c := h.ls[c][1..]])
  }

  /** Cut a used block after n bytes and list the rest. */
  function Carve(h: State, b: int, n: int): State
    requires b in h.bs && Next(h.bs, b) in h.bs
    requires Home(Split(h.bs, b, n), b + BHDR_OVERHEAD + n) in h.ls
  {
    var t := Split(h.bs, b, n);
    var b2 := b + BHDR_OVERHEAD + n;
    h.(bs := t, ls := Push(h.ls, Home(t, b2), b2))
  }

  /** Merge a used block with the free block after it. */
  function MergeNext(h: State, b: int): State
    requires b in h.bs && Next(h.bs, b) in h.bs && Next(h.bs, Next(h.bs, b)) in h.bs
    requires Home(h.bs, Next(h.bs, b)) in h.ls
  {
    var n := Next(h.bs, b);
    h.(bs := Absorb(h.bs, b), ls := Drop(h.ls, Home(h.bs, n), n))
  }

  /** Mark a used block free and list it. */
  function Release(h: State, b: int): State
    requires b in h.bs && Home(Mark(h.bs, b, true), b) in h.ls
  {
    var t := Mark(h.bs, b, true);
    h.(bs := t, ls := Push(h.ls, Home(t, b), b))
  }

  /** Merge a used block into the free block before it, which moves to the list of its new class. */
  function MergePrev(h: State, p: int): State
    requires p in h.bs && Next(h.bs, p) in h.bs && Next(h.bs, Next(h.bs, p)) in h.bs
    requires Home(h.bs, p) in h.ls && Home(Absorb(h.bs, p), p) in h.ls
  {
    var t := Absorb(h.bs, p);
    h.(bs := t, ls := Push(Drop(h.ls, Home(h.bs, p), p), Home(t, p), p))
  }

  /** Every block of a small area has a class in the matrix. */
  lemma HomeIsValid(bs: Blocks, first: int, end: int, a: int)
    requires Tiled(bs, first, end) && end - first < 0x4000_0000
    requires a in bs && a != end
    ensures 0 <= bs[a].size < 0x4000_0000 && InMatrix(Home(bs, a))
  {
    assert Next(bs, a) <= end;
    InsertIsValid(bs[a].size);
  }

  /** The two tilings have the same free blocks, of the same classes, but for b. */
  ghost predicate SameFree(bs: Blocks, t: Blocks, b: int) {
    forall a {:trigger IsFree(t, a)} {:trigger IsFree(bs, a)} :: a != b ==>
      (IsFree(t, a) <==> IsFree(bs, a)) && (IsFree(t, a) ==> Home(t, a) == Home(bs, a))
  }

  lemma PushIndexed(bs: Blocks, ls: Lists, t: Blocks, b: int)
    requires Indexed(bs, ls) && SameFree(bs, t, b)
    requires !IsFree(bs, b) && IsFree(t, b) && InMatrix(Home(t, b))
    ensures Indexed(t, Push(ls, Home(t, b), b))
  {
    var c := Home(t, b);
    var ms := Push(ls, c, b);
    assert forall y {:trigger y in ms[c]} :: y in ms[c] <==> y == b || y in ls[c];
    assert b !in ls[c];
    forall d, x | d in ms && x in ms[d]
      ensures IsFree(t, x) && Home(t, x) == d
    {
      if x != b { assert x in ls[d]; }
    }
    forall x | IsFree(t, x)
      ensures Home(t, x) in ms && x in ms[Home(t, x)]
    {
      if x != b { assert IsFree(bs, x); }
    }
  }

  /** Before it is pushed, a new free block is on no list, and what is listed stays listable. */
  lemma OffList(bs: Blocks, ls: Lists, t: Blocks, b: int)
    requires Members(bs, ls) && SameFree(bs, t, b) && !IsFree(bs, b)
    ensures Members(t, ls) && forall c {:trigger ls[c]} :: c in ls ==> b !in ls[c]
  {
    forall d, x | d in ls && x in ls[d]
      ensures IsFree(t, x) && Home(t, x) == d
    {
      assert IsFree(bs, x);
    }
  }

  lemma DropIndexed(bs: Blocks, ls: Lists, t: Blocks, b: int)
    requires Indexed(bs, ls) && SameFree(bs, t, b)
    requires IsFree(bs, b) && !IsFree(t, b)
    ensures Home(bs, b) in ls && Indexed(t, Drop(ls, Home(bs, b), b))
  {
    var c := Home(bs, b);
    var ms := Drop(ls, c, b);
    WithoutMembers(ls[c], b);
    forall d, x | d in ms && x in ms[d]
      ensures IsFree(t, x) && Home(t, x) == d
    {
      assert x in ls[d];
    }
    forall x | IsFree(t, x)
      ensures Home(t, x) in ms && x in ms[Home(t, x)]
    {
      assert IsFree(bs, x);
    }
  }

  lemma ClaimWellFormed(h: State, c: Class)
    requires WellFormed(h) && InMatrix(c) && h.ls[c] != []
    ensures h.ls[c][0] in h.ls[c] && IsFree(h.bs, h.ls[c][0])
    ensures WellFormed(Claim(h, c)) && Live(Claim(h, c), h.ls[c][0])
  {
    var b := h.ls[c][0];
    assert b in h.ls[c];
    MarkTiled(h.bs, h.first, h.end, b, false);
    var t := Mark(h.bs, b, false);
    DropIndexed(h.bs, h.ls, t, b);
    assert forall a {:trigger Next(t, a)} :: Next(t, a) == Next(h.bs, a);
  }

  lemma CarveWellFormed(h: State, b: int, n: int)
    requires WellFormed(h) && Live(h, b) && !IsFree(h.bs, Next(h.bs, b))
    requires n >= MIN_BLOCK_SIZE && n % 8 == 0 && h.bs[b].size >= n + SIZEOF_BHDR
    ensures Next(h.bs, b) in h.bs && InMatrix(Home(Split(h.bs, b, n), b + BHDR_OVERHEAD + n))
    ensures WellFormed(Carve(h, b, n)) && Live(Carve(h, b, n), b)
  {
    SplitTiled(h.bs, h.first, h.end, b, n);
    SplitNext(h.bs, h.first, h.end, b, n);
    var t, b2 := Split(h.bs, b, n), b + BHDR_OVERHEAD + n;
    HomeIsValid(t, h.first, h.end, b2);
    PushIndexed(h.bs, h.ls, t, b2);
    assert Coalesced(t) by {
      forall a | IsFree(t, a)
        ensures !IsFree(t, Next(t, a))
      {
        if a != b2 { assert !IsFree(h.bs, Next(h.bs, a)); assert Next(h.bs, a) in h.bs; }
      }
    }
  }

  lemma MergeNextWellFormed(h: State, b: int)
    requires WellFormed(h) && Live(h, b) && IsFree(h.bs, Next(h.bs, b))
    ensures Next(h.bs, Next(h.bs, b)) in h.bs && InMatrix(Home(h.bs, Next(h.bs, b)))
    ensures WellFormed(MergeNext(h, b)) && Live(MergeNext(h, b), b)
    ensures !IsFree(MergeNext(h, b).bs, Next(MergeNext(h, b).bs, b))
  {
    var n := Next(h.bs, b);
    AbsorbTiled(h.bs, h.first, h.end, b);
    AbsorbNext(h.bs, h.first, h.end, b);
    var t := Absorb(h.bs, b);
    DropIndexed(h.bs, h.ls, t, n);
    assert Coalesced(t) by {
      forall a | IsFree(t, a)
        ensures !IsFree(t, Next(t, a))
      {
        assert IsFree(h.bs, a) && !IsFree(h.bs, Next(h.bs, a));
      }
    }
  }

  lemma ReleaseWellFormed(h: State, b: int)
    requires WellFormed(h) && Live(h, b)
    requires !IsFree(h.bs, Next(h.bs, b)) && !IsFree(h.bs, Prev(h.bs, b))
    ensures InMatrix(Home(Mark(h.bs, b, true), b))
    ensures WellFormed(Release(h, b))
  {
    MarkTiled(h.bs, h.first, h.end, b, true);
    var t := Mark(h.bs, b, true);
    HomeIsValid(t, h.first, h.end, b);
    PushIndexed(h.bs, h.ls, t, b);
    assert Coalesced(t) by {
      forall a | IsFree(t, a)
        ensures !IsFree(t, Next(t, a))
      {
        assert Next(t, a) == Next(h.bs, a);
        assert Next(h.bs, a) == b ==> Prev(h.bs, b) == a;
      }
    }
  }

  lemma MergePrevWellFormed(h: State, p: int)
    requires WellFormed(h) && IsFree(h.bs, p) && Live(h, Next(h.bs, p))
    requires !IsFree(h.bs, Next(h.bs, Next(h.bs, p)))
    ensures Next(h.bs, Next(h.bs, p)) in h.bs
    ensures InMatrix(Home(h.bs, p)) && InMatrix(Home(Absorb(h.bs, p), p))
    ensures WellFormed(MergePrev(h, p))
  {
    AbsorbTiled(h.bs, h.first, h.end, p);
    AbsorbNext(h.bs, h.first, h.end, p);
    var t := Absorb(h.bs, p);
    HomeIsValid(t, h.first, h.end, p);
    var u := Mark(h.bs, p, false);
    DropIndexed(h.bs, h.ls, u, p);
    PushIndexed(u, Drop(h.ls, Home(h.bs, p), p), t, p);
    assert Coalesced(t) by {
      forall a | IsFree(t, a)
        ensures !IsFree(t, Next(t, a))
      {
        assert IsFree(h.bs, a) && !IsFree(h.bs, Next(h.bs, a));
      }
    }
  }

  // ---------- the calls ----------

  datatype Option<T> = None | Some(value: T)

  /** The size a request is rounded to, before the search rounds it again: a multiple of 8. */
  function Request(size: nat): (r: nat)
    ensures r % 8 == 0 && r >= MIN_BLOCK_SIZE && size <= r <= size + 8
    ensures size % 8 == 0 && size >= MIN_BLOCK_SIZE ==> r == size
  {
    if size < MIN_BLOCK_SIZE then MIN_BLOCK_SIZE else (size + 7) / 8 * 8
  }

  /** The largest rounded request whose search class is in the matrix. */
  const MAX_REQUEST := 0x3F00_0000

  /** What malloc_ex searches for: the request rounded with 32-bit sums. */
  function Rounding(size: nat): nat {
    if size < MIN_BLOCK_SIZE then MIN_BLOCK_SIZE else RoundUpSize(size)
  }

  /** Only the last seven requests are not rounded to what Request says, but to 0. */
  lemma RoundingIs(size: nat)
    requires size <= WORD_MAX
    ensures Rounding(size) == if size <= WORD_MAX - 7 then Request(size) else 0
  {
    hide RoundUpSize;
    RoundUpSizeIs(size);
  }

  lemma WholeFours(size: nat)
    ensures Request(size) % 4 == 0 && (size <= WORD_MAX - 7 ==> Request(size) <= WORD_MAX)
    ensures size <= MAX_REQUEST <==> Request(size) <= MAX_REQUEST
  {
    hide Request;
    EightsAreFours(Request(size));
    LastRequest(size);
  }

  lemma LastRequest(size: nat)
    ensures size <= MAX_REQUEST <==> Request(size) <= MAX_REQUEST
    ensures size <= WORD_MAX - 7 ==> Request(size) <= WORD_MAX
  {
  }

  /** Of all 32-bit requests, those up to MAX_REQUEST alone lead to a class of the matrix with a size that
      holds the request. */
  lemma RequestServed(size: nat)
    requires size <= WORD_MAX
    ensures Rounding(size) <= WORD_MAX && var (need, c) := MappingSearch(Rounding(size));
      InMatrix(c) && need >= size <==> size <= MAX_REQUEST
  {
    hide Rounding, MappingSearch, Request;
    RoundingIs(size);
    WholeFours(size);
    SearchServes(Rounding(size));
    SearchRounds(Rounding(size));
  }

  /** c is the first non-empty class at or after from. */
  ghost predicate FirstFit(ls: Lists, from: Class, c: Class) {
    && c in ls && !Before(c, from) && ls[c] != []
    && forall d {:trigger ls[d]} :: d in ls && Before(d, c) && !Before(d, from) ==> ls[d] == []
  }

  ghost function Fit(ls: Lists, from: Class): (r: Option<Class>)
    ensures r.Some? ==> FirstFit(ls, from, r.value)
    ensures r.None? ==> forall c :: !FirstFit(ls, from, c)
  {
    if c :| FirstFit(ls, from, c) then Some(c) else None
  }

  /** The two states have the same live blocks, of the same sizes, but for b. */
  ghost predicate SameLive(h: State, g: State, b: int) {
    && g.first == h.first && g.end == h.end
    && forall a {:trigger Live(h, a)} {:trigger Live(g, a)} :: a != b ==>
      (Live(g, a) <==> Live(h, a)) && (Live(h, a) ==> g.bs[a].size == h.bs[a].size)
  }

  /** Split a used block when the rest can hold a block of its own. */
  ghost function Trim(h: State, b: int, n: int): (g: State)
    requires WellFormed(h) && Live(h, b) && !IsFree(h.bs, Next(h.bs, b))
    requires n >= MIN_BLOCK_SIZE && n % 8 == 0 && n <= h.bs[b].size
    ensures WellFormed(g) && SameLive(h, g, b) && Live(g, b)
    ensures n <= g.bs[b].size <= n + 8
  {
    if h.bs[b].size - n >= SIZEOF_BHDR then
      CarveWellFormed(h, b, n);
      SplitNext(h.bs, h.first, h.end, b, n);
      Carve(h, b, n)
    else
      h
  }

  /** Merge a used block with the block after it, when that is free. */
  ghost function Grow(h: State, b: int): (g: State)
    requires WellFormed(h) && Live(h, b)
    ensures WellFormed(g) && SameLive(h, g, b) && Live(g, b) && !IsFree(g.bs, Next(g.bs, b))
    ensures IsFree(h.bs, Next(h.bs, b)) ==> g.bs[b].size == h.bs[b].size + BHDR_OVERHEAD + h.bs[Next(h.bs, b)].size
    ensures !IsFree(h.bs, Next(h.bs, b)) ==> g == h
  {
    if IsFree(h.bs, Next(h.bs, b)) then
      MergeNextWellFormed(h, b);
      AbsorbNext(h.bs, h.first, h.end, b);
      MergeNext(h, b)
    else
      h
  }

  /** Hand out the head of class c, cut to n bytes. */
  ghost function Serve(h: State, c: Class, n: int): (g: State)
    requires WellFormed(h) && c in h.ls && h.ls[c] != [] && h.ls[c][0] in h.bs
    requires n >= MIN_BLOCK_SIZE && n % 8 == 0 && n <= h.bs[h.ls[c][0]].size
    ensures WellFormed(g) && SameLive(h, g, h.ls[c][0])
    ensures !Live(h, h.ls[c][0]) && Live(g, h.ls[c][0])
    ensures n <= g.bs[h.ls[c][0]].size <= n + 8
  {
    ClaimWellFormed(h, c);
    assert !IsFree(h.bs, Next(h.bs, h.ls[c][0]));
    assert Next(Claim(h, c).bs, h.ls[c][0]) == Next(h.bs, h.ls[c][0]);
    Trim(Claim(h, c), h.ls[c][0], n)
  }

  /** malloc_ex. */
  ghost function Malloc(h: State, size: nat): (r: (State, Option<int>))
    requires WellFormed(h) && size <= MAX_REQUEST
    ensures WellFormed(r.0)
    ensures r.1.None? ==> r.0 == h
    ensures r.1.Some? ==> SameLive(h, r.0, r.1.value) && !Live(h, r.1.value) && Live(r.0, r.1.value)
    ensures r.1.Some? ==> Request(size) <= MappingSearch(Request(size)).0 <= r.0.bs[r.1.value].size
    ensures r.1.Some? ==> r.0.bs[r.1.value].size <= MappingSearch(Request(size)).0 + 8
  {
    hide MappingSearch, MappingInsert, WellFormed, Request, SameLive, Live, IsFree;
    var n := Request(size);
    var (need, from) := MappingSearch(n);
    var c := Fit(h.ls, from);
    if c.None? then
      (h, None)
    else
      FitIsLargeEnough(h, n, c.value);
      (Serve(h, c.value, need), Some(h.ls[c.value][0]))
  }

  /** Any block of a class at or after the search class holds the rounded request. */
  lemma FitIsLargeEnough(h: State, n: nat, c: Class)
    requires WellFormed(h) && n <= 0x3F00_0000 && n % 8 == 0 && n >= MIN_BLOCK_SIZE
    requires c in h.ls && h.ls[c] != [] && !Before(c, MappingSearch(n).1)
    ensures h.ls[c][0] in h.ls[c] && IsFree(h.bs, h.ls[c][0])
    ensures MIN_BLOCK_SIZE <= n <= MappingSearch(n).0 <= h.bs[h.ls[c][0]].size
    ensures MappingSearch(n).0 % 8 == 0
  {
    hide MappingSearch, MappingInsert;
    var b := h.ls[c][0];
    assert b in h.ls[c];
    HomeIsValid(h.bs, h.first, h.end, b);
    SearchAligned(n);
    SearchOfRounded(n, h.bs[b].size);
  }

  /** The second half of free_ex: the block is free, and part of the block before it if that is free too. */
  ghost function Settle(g: State, b: int): (r: State)
    requires WellFormed(g) && Live(g, b) && !IsFree(g.bs, Next(g.bs, b))
    ensures WellFormed(r) && SameLive(g, r, b) && !Live(r, b)
  {
    var p := Prev(g.bs, b);
    if IsFree(g.bs, p) then
      assert Next(g.bs, p) == b;
      MergePrevWellFormed(g, p);
      AbsorbNext(g.bs, g.first, g.end, p);
      MergePrev(g, p)
    else
      ReleaseWellFormed(g, b);
      Release(g, b)
  }

  /** free_ex. */
  ghost function Free(h: State, b: int): (g: State)
    requires WellFormed(h) && Live(h, b)
    ensures WellFormed(g) && SameLive(h, g, b) && !Live(g, b)
  {
    Settle(Grow(h, b), b)
  }

  /** realloc_ex can answer without moving the block. */
  predicate InPlace(h: State, b: int, n: int)
    requires b in h.bs
  {
    || n <= h.bs[b].size
    || (IsFree(h.bs, Next(h.bs, b)) && n <= h.bs[b].size + h.bs[Next(h.bs, b)].size)
  }

  /** realloc_ex of a live block to a non-zero size. */
  ghost function Realloc(h: State, b: int, size: nat): (r: (State, Option<int>))
    requires WellFormed(h) && Live(h, b)
    requires size <= WORD_MAX - 7 && (InPlace(h, b, Request(size)) || size <= MAX_REQUEST)
    ensures WellFormed(r.0)
  {
    var n := Request(size);
    if InPlace(h, b, n) then
      (Trim(Grow(h, b), b, n), Some(b))
    else
      var (g, p) := Malloc(h, n);
      if p.None? then (h, None) else (Free(g, b), p)
  }

  /** What CutBlock relies on of the tiling after the cut. */
  lemma CutReady(g: State, b: int, n: nat)
    requires WellFormed(g) && Live(g, b) && !IsFree(g.bs, Next(g.bs, b))
    requires n >= MIN_BLOCK_SIZE && n % 8 == 0 && g.bs[b].size - n >= SIZEOF_BHDR
    ensures Next(g.bs, b) in g.bs
    ensures var t, tmpB := Split(g.bs, b, n), b + BHDR_OVERHEAD + n;
      && Tiled(t, g.first, g.end) && b in t && IsFree(t, tmpB) && tmpB != Next(g.bs, b) && tmpB != b
      && InMatrix(Home(t, tmpB)) && Members(t, g.ls) && Members(t, Push(g.ls, Home(t, tmpB), tmpB))
      && (forall c {:trigger g.ls[c]} :: c in g.ls ==> tmpB !in g.ls[c])
      && n < 0x4000_0000 && t[tmpB].size == g.bs[b].size - n - BHDR_OVERHEAD < 0x4000_0000
      && g.bs[b].size % 8 == 0 && g.bs[b].size < 0x4000_0000
      && Next(g.bs, b) in t && b != Next(g.bs, b)
      && Carve(g, b, n).bs == t && Carve(g, b, n).ls == Push(g.ls, Home(t, tmpB), tmpB)
  {
    CarveWellFormed(g, b, n);
    SplitNext(g.bs, g.first, g.end, b, n);
    var t, tmpB := Split(g.bs, b, n), b + BHDR_OVERHEAD + n;
    OffList(g.bs, g.ls, t, tmpB);
    HomeIsValid(g.bs, g.first, g.end, b);
    assert tmpB in t;
  }

  lemma FitIs(ls: Lists, from: Class, c: Class)
    requires FirstFit(ls, from, c)
    ensures Fit(ls, from) == Some(c)
  {
    var d := Fit(ls, from).value;
    assert d == c || Before(c, d) || Before(d, c);
  }

  lemma FitIsNone(ls: Lists, from: Class)
    requires AllClasses(ls)
    requires forall c {:trigger ls[c]} :: InMatrix(c) && !Before(c, from) ==> ls[c] == []
    ensures Fit(ls, from) == None
  {
  }

  /** The search class of a request is in the matrix, and list heads are real addresses. */
  lemma SearchReady(h: State, n: nat)
    requires WellFormed(h) && n <= MAX_REQUEST && n % 8 == 0
    ensures InMatrix(MappingSearch(n).1)
    ensures forall c {:trigger h.ls[c]} :: c in h.ls && h.ls[c] != [] ==> h.ls[c][0] > 0
  {
    SearchIsValid(n);
    forall c {:trigger h.ls[c]} | c in h.ls && h.ls[c] != []
      ensures h.ls[c][0] > 0
    {
      assert h.ls[c][0] in h.ls[c];
    }
  }

  /** What malloc_ex relies on once the search has picked class c. */
  lemma ServeReady(h: State, n: nat, c: Class)
    requires WellFormed(h) && MIN_BLOCK_SIZE <= n <= MAX_REQUEST && n % 8 == 0
    requires FirstFit(h.ls, MappingSearch(n).1, c)
    ensures var b, need := h.ls[c][0], MappingSearch(n).0;
      && IsFree(h.bs, b) && InMatrix(c)
      && MIN_BLOCK_SIZE <= need <= h.bs[b].size && need % 8 == 0
      && Drop(h.ls, c, b) == h.ls[c := h.ls[c][1..]]
      && WellFormed(Claim(h, c)) && Live(Claim(h, c), b)
      && !IsFree(Claim(h, c).bs, Next(Claim(h, c).bs, b))
  {
    FitIsLargeEnough(h, n, c);
    ClaimWellFormed(h, c);
    var b := h.ls[c][0];
    assert !IsFree(h.bs, Next(h.bs, b));
    assert Next(Claim(h, c).bs, b) == Next(h.bs, b);
  }

  /** With a live block marked free, but not yet listed, the lists still hold free blocks only. */
  lemma MarkReady(h: State, b: int)
    requires WellFormed(h) && Live(h, b)
    ensures var t := Mark(h.bs, b, true);
      && Tiled(t, h.first, h.end) && Members(t, h.ls) && IsFree(t, b)
      && (forall c {:trigger h.ls[c]} :: c in h.ls ==> b !in h.ls[c])
      && (forall a {:trigger Home(t, a)} :: Home(t, a) == Home(h.bs, a))
  {
    MarkTiled(h.bs, h.first, h.end, b, true);
    OffList(h.bs, h.ls, Mark(h.bs, b, true), b);
  }

  predicate PrevIsMergeable(g: State, p: int) {
    && p in g.bs && Next(g.bs, p) in g.bs && Next(g.bs, Next(g.bs, p)) in g.bs
    && Home(g.bs, p) in g.ls && Home(Absorb(g.bs, p), p) in g.ls
  }

  lemma PrevReady(g: State, b: int)
    requires WellFormed(g) && Live(g, b) && !IsFree(g.bs, Next(g.bs, b)) && IsFree(g.bs, Prev(g.bs, b))
    ensures var p := Prev(g.bs, b);
      && Next(g.bs, p) == b && Next(g.bs, b) in g.bs && p != b && Next(g.bs, b) != b && Next(g.bs, b) != p
      && Home(g.bs, p) in g.ls && p in g.ls[Home(g.bs, p)]
      && InMatrix(Home(g.bs, p)) && InMatrix(Home(Absorb(g.bs, p), p))
      && PrevIsMergeable(g, p) && WellFormed(MergePrev(g, p)) && SameLive(g, MergePrev(g, p), b)
      && var ls := Drop(g.ls, Home(g.bs, p), p);
         Members(Absorb(g.bs, p), ls) && forall c {:trigger ls[c]} :: c in ls ==> p !in ls[c]
  {
    var p := Prev(g.bs, b);
    assert Next(g.bs, p) == b;
    MergePrevWellFormed(g, p);
    AbsorbNext(g.bs, g.first, g.end, p);
    var ls := Drop(g.ls, Home(g.bs, p), p);
    WithoutMembers(g.ls[Home(g.bs, p)], p);
    forall c, x | c in ls && x in ls[c]
      ensures x != p && IsFree(Absorb(g.bs, p), x) && Home(Absorb(g.bs, p), x) == c
    {
      assert x in g.ls[c];
      if x != p { assert x in MergePrev(g, p).ls[c]; }
    }
  }

  lemma ReleaseReady(g: State, b: int)
    requires WellFormed(g) && Live(g, b) && !IsFree(g.bs, Next(g.bs, b)) && !IsFree(g.bs, Prev(g.bs, b))
    ensures var t := Mark(g.bs, b, true);
      && Tiled(t, g.first, g.end) && Members(t, g.ls) && IsFree(t, b)
      && (forall c {:trigger g.ls[c]} :: c in g.ls ==> b !in g.ls[c])
      && InMatrix(Home(t, b)) && WellFormed(Release(g, b)) && SameLive(g, Release(g, b), b)
      && Next(g.bs, b) in g.bs && Next(t, b) == Next(g.bs, b) && Next(g.bs, b) != b && Prev(t, Next(t, b)) == b
  {
    MarkReady(g, b);
    ReleaseWellFormed(g, b);
    assert Next(g.bs, b) in g.bs;
  }

  lemma FreeOfGrown(h: State, b: int)
    requires WellFormed(h) && Live(h, b)
    ensures var g := Grow(h, b); Grow(g, b) == g && Free(g, b) == Free(h, b)
  {
  }

  lemma SameLiveTrans(h: State, g: State, t: State, b: int)
    requires SameLive(h, g, b) && SameLive(g, t, b)
    ensures SameLive(h, t, b)
  {
  }

  /** malloc_ex by the outcome of the search. */
  lemma MallocFinds(h: State, size: nat, c: Class)
    requires WellFormed(h) && size <= MAX_REQUEST && FirstFit(h.ls, MappingSearch(Request(size)).1, c)
    ensures var b, need := h.ls[c][0], MappingSearch(Request(size)).0;
      && IsFree(h.bs, b) && WellFormed(Claim(h, c)) && Live(Claim(h, c), b)
      && !IsFree(Claim(h, c).bs, Next(Claim(h, c).bs, b))
      && MIN_BLOCK_SIZE <= need <= Claim(h, c).bs[b].size && need % 8 == 0
      && Malloc(h, size) == (Trim(Claim(h, c), b, need), Some(b))
  {
    hide MappingSearch, MappingInsert, Request;
    ServeReady(h, Request(size), c);
    FitIs(h.ls, MappingSearch(Request(size)).1, c);
  }

  lemma MallocFindsNone(h: State, size: nat)
    requires WellFormed(h) && size <= MAX_REQUEST
    requires var from := MappingSearch(Request(size)).1;
      forall c {:trigger h.ls[c]} :: InMatrix(c) && !Before(c, from) ==> h.ls[c] == []
    ensures Malloc(h, size) == (h, None)
  {
    FitIsNone(h.ls, MappingSearch(Request(size)).1);
  }

  // ---------- init_memory_pool ----------

  function NoLists(): Lists {
    map fl, sl | 0 <= fl < REAL_FLI && 0 <= sl < MAX_SLI :: Class(fl, sl) := []
  }

  /** The area as process_area leaves it: the block of the area information, one used block, and
      the sentinel. */
  function Raw(first: int, end: int): State {
    var b := first + 2 * BHDR_OVERHEAD;
    State(first, end,
          map[first := Block(MIN_BLOCK_SIZE, false, 0), b := Block(end - b - BHDR_OVERHEAD, false, first),
              end := Block(0, false, b)],
          NoLists())
  }

  predicate IsArea(first: int, end: int) {
    0 < first && first + 4 * BHDR_OVERHEAD <= end < first + 0x4000_0000 && (end - first) % 8 == 0
  }

  lemma RawWellFormed(first: int, end: int)
    requires IsArea(first, end)
    ensures WellFormed(Raw(first, end)) && Live(Raw(first, end), first + 2 * BHDR_OVERHEAD)
    ensures forall b :: Live(Raw(first, end), b) ==> b == first + 2 * BHDR_OVERHEAD
  {
    var h := Raw(first, end);
    var b := first + 2 * BHDR_OVERHEAD;
    assert Next(h.bs, first) == b && Next(h.bs, b) == end && Prev(h.bs, b) == first && Prev(h.bs, end) == b;
    assert Ends(h.bs, first, end) && Sized(h.bs, first, end);
    assert Forward(h.bs, end);
    assert Backward(h.bs, first);
  }

  /** The heap init_memory_pool leaves: one free block, on its list. */
  ghost function Initial(first: int, end: int): (h: State)
    requires IsArea(first, end)
    ensures WellFormed(h) && h.first == first && h.end == end && forall b :: !Live(h, b)
  {
    RawWellFormed(first, end);
    Free(Raw(first, end), first + 2 * BHDR_OVERHEAD)
  }

  lemma InitialShape(first: int, end: int)
    requires IsArea(first, end)
    ensures var b := first + 2 * BHDR_OVERHEAD;
      Initial(first, end).bs ==
      map[first := Block(MIN_BLOCK_SIZE, false, 0), b := Block(end - b - BHDR_OVERHEAD, true, first),
          end := Block(0, false, b)]
  {
    hide WellFormed, IsArea, SameLive;
    RawWellFormed(first, end);
    var h, b := Raw(first, end), first + 2 * BHDR_OVERHEAD;
    assert Next(h.bs, b) == end && Prev(h.bs, b) == first;
    ReleaseWellFormed(h, b);
    assert Initial(first, end) == Release(h, b);
  }
}
