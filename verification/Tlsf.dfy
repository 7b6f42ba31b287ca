/** The two-level segregated-fit allocator of lib/tlsf/tlsf.c over one area. */
module Allocator {
  import opened Words
  import opened Mapping
  import opened Tiling
  import opened Heap
  import opened Memory
  import opened Header
  import opened Sequences

  const TLSF_SIGNATURE := 0x2A59FA59

  const SIZEOF_TLSF := 3180
  /** ROUNDUP_SIZE(sizeof(tlsf_t)). */
  const TLSF_ROOM := 3184

  /** Where init_memory_pool puts the sentinel. */
  function PoolEnd(memPool: int, memPoolSize: nat): int
    requires memPoolSize >= SIZEOF_TLSF
  {
    memPool + TLSF_ROOM + (memPoolSize - SIZEOF_TLSF) / 8 * 8 - BHDR_OVERHEAD
  }

  lemma PoolIsArea(memPool: nat, memPoolSize: nat)
    requires 0 < memPool && SIZEOF_TLSF + 8 * BHDR_OVERHEAD <= memPoolSize < 0x4000_0000
    ensures IsArea(memPool + TLSF_ROOM, PoolEnd(memPool, memPoolSize))
    ensures var size := RoundDownSize(memPoolSize - SIZEOF_TLSF);
      size <= 0x4000_0000 && PoolEnd(memPool, memPoolSize) == memPool + TLSF_ROOM + size - BHDR_OVERHEAD
  {
    RoundDownSizeIs(memPoolSize - SIZEOF_TLSF);
    hide RoundDownSize;
  }

  /** The subtraction of the unrounded sizeof(tlsf_t) leaves the area inside the pool exactly for
      pool sizes up to 3 above a multiple of 8; for the others it ends 1 to 4 bytes beyond. */
  lemma AreaInsidePool(memPool: int, memPoolSize: nat)
    requires memPoolSize >= SIZEOF_TLSF
    ensures PoolEnd(memPool, memPoolSize) + BHDR_OVERHEAD <= memPool + memPoolSize <==> memPoolSize % 8 < 4
    ensures PoolEnd(memPool, memPoolSize) + BHDR_OVERHEAD ==
      memPool + memPoolSize - memPoolSize % 8 + if memPoolSize % 8 < 4 then 0 else 8
  {
    PoolQuotient(memPoolSize);
  }

  lemma PoolQuotient(n: nat)
    requires n >= SIZEOF_TLSF
    ensures (n - SIZEOF_TLSF) / 8 == n / 8 - if n % 8 < 4 then 398 else 397
  {
  }

  /** A pool of 3244 bytes, the smallest accepted: the header of the sentinel ends 4 bytes beyond it. */
  lemma SentinelOutside(memPool: int)
    ensures PoolEnd(memPool, 3244) + BHDR_OVERHEAD == memPool + 3244 + 4
  {
  }

  /** The free block of the new heap has a class of the matrix exactly for pools below 2^30 + 3212 bytes. */
  lemma PoolInMatrix(memPool: nat, memPoolSize: nat)
    requires SIZEOF_TLSF + 8 * BHDR_OVERHEAD <= memPoolSize <= WORD_MAX
    ensures var b := memPool + TLSF_ROOM + 2 * BHDR_OVERHEAD;
      var size := PoolEnd(memPool, memPoolSize) - b - BHDR_OVERHEAD;
      0 <= size <= WORD_MAX && (InMatrix(MappingInsert(size)) <==> memPoolSize < 0x4000_0000 + 3212)
  {
    hide MappingInsert;
    InsertIsValid(PoolEnd(memPool, memPoolSize) - (memPool + TLSF_ROOM + 3 * BHDR_OVERHEAD));
  }

  /** The pointer a call returns for a block, NULL for none. */
  function Address(b: Option<int>): int {
    match b case None => 0 case Some(a) => a + BHDR_OVERHEAD
  }

  /** No block is at address 0 or below. */
  lemma AnyBlockElse(g: State, m: Memory, k: Memory, b: int)
    requires WellFormed(g) && SameLivePayload(g, m, k, 0)
    ensures SameLivePayload(g, m, k, b)
  {
    forall a, w {:trigger Live(g, a), Rd(k, w)} | Live(g, a) && a != b && a + 8 <= w < Next(g.bs, a)
      ensures Rd(k, w) == Rd(m, w)
    {
    }
  }

  lemma NothingMoved(g: State, m: Memory, b: int)
    ensures SameLivePayload(g, m, m, b)
  {
  }

  /** The null address stands for failure alone. */
  lemma NoAddress(h: State, size: nat)
    requires WellFormed(h) && size <= MAX_REQUEST
    ensures var (g, b) := Malloc(h, size); Address(b) == 0 ==> g == h
  {
    hide Malloc;
  }

  /** A request counts as the size it is rounded to. */
  lemma Rounded(h: State, b: int, size: nat)
    requires WellFormed(h) && Live(h, b) && size <= WORD_MAX - 7
    requires InPlace(h, b, Request(size)) || size <= MAX_REQUEST
    ensures var n := Request(size);
      && MIN_BLOCK_SIZE <= n <= WORD_MAX - 7 && n % 8 == 0 && (size <= MAX_REQUEST ==> n <= MAX_REQUEST)
      && (InPlace(h, b, n) || n <= MAX_REQUEST)
      && Realloc(h, b, n) == Realloc(h, b, size)
      && (Address(Realloc(h, b, n).1) == 0 ==> Realloc(h, b, n).0 == h)
  {
    var n := Request(size);
    RequestFits(size);
    hide Request, Malloc, InPlace, Trim, Grow, Free;
    if n <= MAX_REQUEST { NoAddress(h, n); }
  }

  lemma RequestFits(size: nat)
    requires size <= WORD_MAX - 7
    ensures Request(size) <= WORD_MAX - 7 && (size <= MAX_REQUEST ==> Request(size) <= MAX_REQUEST)
    ensures Request(Request(size)) == Request(size)
  {
  }

  class Tlsf {
    // tlsf_t
    var tlsf_signature: nat
    var area_head: int
    var fl_bitmap: nat
    const sl_bitmap: array<nat>
    const matrix: array2<int>
    // the words of the area
    var mem: Memory

    ghost var h: State

    /** The matrix holds the heads, and the bitmaps say which lists are not empty. */
    ghost predicate Heads(ls: Lists)
      reads matrix
    {
      && matrix.Length0 == REAL_FLI && matrix.Length1 == MAX_SLI
      && forall c {:trigger ls[c]} :: InMatrix(c) && c in ls ==> matrix[c.fl, c.sl] == Head(ls[c])
    }

    ghost predicate Bits(ls: Lists)
      reads this`fl_bitmap, sl_bitmap
    {
      && sl_bitmap.Length == REAL_FLI
      && fl_bitmap <= WORD_MAX
      && (forall i {:trigger Bit(fl_bitmap, i)} :: 0 <= i < 32 ==>
           (Bit(fl_bitmap, i) <==> i < REAL_FLI && sl_bitmap[i] != 0))
      && (forall i :: 0 <= i < REAL_FLI ==> sl_bitmap[i] <= WORD_MAX)
      && (forall c {:trigger ls[c]} :: InMatrix(c) && c in ls ==> (Bit(sl_bitmap[c.fl], c.sl) <==> ls[c] != []))
    }

    /** The index says exactly what the lists are. */
    ghost predicate Index(ls: Lists)
      reads this`mem, this`fl_bitmap, sl_bitmap, matrix
    {
      AllClasses(ls) && Unrepeated(ls) && Heads(ls) && Bits(ls) && AllThreaded(mem, ls)
    }

    /** set_bit on both levels. */
    method SetBits(ghost ls: Lists, ghost ms: Lists, fl: int, sl: int)
      requires AllClasses(ls) && Bits(ls) && InMatrix(Class(fl, sl))
      requires AllClasses(ms) && ms[Class(fl, sl)] != []
      requires forall c {:trigger ms[c]} :: InMatrix(c) && c != Class(fl, sl) ==> ms[c] == ls[c]
      modifies this`fl_bitmap, sl_bitmap
      ensures Bits(ms)
    {
      SetBitIsSet(sl_bitmap[fl], sl);
      SetBitIsSet(fl_bitmap, fl);
      sl_bitmap[fl] := SetBit(sl_bitmap[fl], sl);
      fl_bitmap := SetBit(fl_bitmap, fl);
    }

    /** clear_bit on the second level and, when nothing is left there, on the first. */
    method ClearBits(ghost ls: Lists, ghost ms: Lists, fl: int, sl: int)
      requires AllClasses(ls) && Bits(ls) && InMatrix(Class(fl, sl))
      requires AllClasses(ms) && ms[Class(fl, sl)] == []
      requires forall c {:trigger ms[c]} :: InMatrix(c) && c != Class(fl, sl) ==> ms[c] == ls[c]
      modifies this`fl_bitmap, sl_bitmap
      ensures Bits(ms)
    {
      ClearBitIsClear(sl_bitmap[fl], sl);
      ClearBitIsClear(fl_bitmap, fl);
      sl_bitmap[fl] := ClearBit(sl_bitmap[fl], sl);
      if sl_bitmap[fl] == 0 {
        fl_bitmap := ClearBit(fl_bitmap, fl);
      }
    }

    /** A set bit at or after sl on the level of the search class. */
    lemma FoundOnLevel(ls: Lists, fl: int, sl: int)
      requires AllClasses(ls) && Bits(ls) && InMatrix(Class(fl, sl))
      ensures var tmp := MaskFrom(sl_bitmap[fl], sl);
        && tmp <= WORD_MAX
        && (tmp != 0 ==> 0 <= LsBit(tmp) < 32 && FirstFit(ls, Class(fl, sl), Class(fl, LsBit(tmp))))
        && (tmp == 0 ==> forall d {:trigger ls[d]} :: InMatrix(d) && d.fl == fl && d.sl >= sl ==> ls[d] == [])
    {
      var tmp := MaskFrom(sl_bitmap[fl], sl);
      MaskFromKeeps(sl_bitmap[fl], sl);
      LsBitIsLowest(tmp);
      if tmp != 0 {
        var c := Class(fl, LsBit(tmp));
        assert Bit(sl_bitmap[c.fl], c.sl);
        assert ls[c] != [];
        forall d | d in ls && Before(d, c) && !Before(d, Class(fl, sl))
          ensures ls[d] == []
        {
          assert !Bit(tmp, d.sl);
        }
      } else {
        NoBits(tmp);
        forall d {:trigger ls[d]} | InMatrix(d) && d.fl == fl && d.sl >= sl
          ensures ls[d] == []
        {
          assert !Bit(tmp, d.sl);
        }
      }
    }

    /** Otherwise, the first later level with any bit set, and its lowest bit. */
    lemma FoundLater(ls: Lists, fl: int)
      requires AllClasses(ls) && Bits(ls) && 0 <= fl < REAL_FLI
      ensures var up := LsBit(MaskFrom(fl_bitmap, fl + 1));
        && MaskFrom(fl_bitmap, fl + 1) <= WORD_MAX
        && (up > 0 ==> fl < up < REAL_FLI && sl_bitmap[up] != 0)
        && (up > 0 ==> forall d {:trigger ls[d]} :: InMatrix(d) && fl < d.fl < up ==> ls[d] == [])
        && (up <= 0 ==> forall d {:trigger ls[d]} :: InMatrix(d) && fl < d.fl ==> ls[d] == [])
    {
      var tmp := MaskFrom(fl_bitmap, fl + 1);
      MaskFromKeeps(fl_bitmap, fl + 1);
      LsBitIsLowest(tmp);
      NoBitsOf(tmp);
      var up := LsBit(tmp);
      if up > 0 { assert Bit(fl_bitmap, up); }
      forall d {:trigger ls[d]} | InMatrix(d) && fl < d.fl && (up > 0 ==> d.fl < up)
        ensures ls[d] == []
      {
        assert !Bit(tmp, d.fl);
        assert !Bit(fl_bitmap, d.fl);
        BitOfZero(d.sl);
      }
    }

    lemma NoBitsOf(w: nat)
      ensures w == 0 ==> forall i: nat {:trigger Bit(w, i)} :: !Bit(w, i)
    {
      if w == 0 { NoBits(w); }
    }

    /** FIND_SUITABLE_BLOCK: the head of the first non-empty list at or after (fl, sl). */
    method FindSuitableBlock(ghost ls: Lists, fl0: int, sl0: int) returns (b: int, fl: int, sl: int)
      requires Index(ls) && InMatrix(Class(fl0, sl0))
      requires forall c {:trigger ls[c]} :: c in ls && ls[c] != [] ==> ls[c][0] > 0
      ensures b == 0 ==> forall c {:trigger ls[c]} :: InMatrix(c) && !Before(c, Class(fl0, sl0)) ==> ls[c] == []
      ensures b != 0 ==> FirstFit(ls, Class(fl0, sl0), Class(fl, sl)) && b == ls[Class(fl, sl)][0]
    {
      fl, sl, b := fl0, sl0, 0;
      FoundOnLevel(ls, fl, sl);
      var tmp := MaskFrom(sl_bitmap[fl], sl);
      if tmp != 0 {
        sl := LsBit(tmp);
        b := matrix[fl, sl];
        assert b == Head(ls[Class(fl, sl)]);
      } else {
        FoundLater(ls, fl);
        fl := LsBit(MaskFrom(fl_bitmap, fl + 1));
        if fl > 0 {
          LsBitIsLowest(sl_bitmap[fl]);
          sl := LsBit(sl_bitmap[fl]);
          b := matrix[fl, sl];
          assert b == Head(ls[Class(fl, sl)]);
        }
      }
    }

    // ---------- memory ----------

    /** Every load and store of the allocator is of a word of the area. */
    ghost predicate InArea(a: int)
      reads this`h
    {
      h.first <= a <= h.end + 4
    }

    function Load(a: int): nat
      requires InArea(a)
      reads this`mem, this`h
    {
      Rd(mem, a)
    }

    method Store(a: int, v: int)
      requires InArea(a) && v >= 0
      modifies this`mem
      ensures mem == old(mem)[a := v]
    {
      mem := mem[a := v];
    }

    // ---------- list surgery ----------

    /** The stores of INSERT_BLOCK to the free pointers. */
    method LinkFirst(ghost t: Blocks, ghost ls: Lists, b: int, head: int, ghost c: Class)
      requires AllThreaded(mem, ls) && Unrepeated(ls) && Members(t, ls) && Tiled(t, h.first, h.end)
      requires IsFree(t, b) && c in ls && head == Head(ls[c])
      requires forall d {:trigger ls[d]} :: d in ls ==> b !in ls[d]
      modifies this`mem
      ensures AllThreaded(mem, Push(ls, c, b))
      ensures SameHeaders(t, old(mem), mem) && SamePayload(t, old(mem), mem)
    {
      TiledIsLaid(t, h.first, h.end);
      InsertThreaded(t, mem, ls, c, b);
      assert Next(t, b) <= h.end;
      Store(b + 8, 0);
      Store(b + 12, head);
      if head != 0 {
        assert head in ls[c];
        assert Next(t, head) <= h.end;
        Store(head + 8, b);
      }
    }

    method SetHead(ghost ls: Lists, b: int, fl: int, sl: int)
      requires AllClasses(ls) && Heads(ls) && Bits(ls) && InMatrix(Class(fl, sl))
      modifies this`fl_bitmap, sl_bitmap, matrix
      ensures Heads(Push(ls, Class(fl, sl), b)) && Bits(Push(ls, Class(fl, sl), b))
    {
      ghost var ms := Push(ls, Class(fl, sl), b);
      matrix[fl, sl] := b;
      assert forall c {:trigger ms[c]} :: InMatrix(c) && c != Class(fl, sl) ==> ms[c] == ls[c];
      SetBits(ls, ms, fl, sl);
    }

    /** INSERT_BLOCK: b becomes the head of its list. */
    method InsertBlock(ghost t: Blocks, ghost ls: Lists, b: int, fl: int, sl: int)
      requires Index(ls) && Members(t, ls) && Tiled(t, h.first, h.end)
      requires IsFree(t, b) && InMatrix(Class(fl, sl))
      requires forall c {:trigger ls[c]} :: c in ls ==> b !in ls[c]
      modifies this`mem, this`fl_bitmap, sl_bitmap, matrix
      ensures Index(Push(ls, Class(fl, sl), b))
      ensures SameHeaders(t, old(mem), mem) && SamePayload(t, old(mem), mem)
    {
      LinkFirst(t, ls, b, matrix[fl, sl], Class(fl, sl));
      SetHead(ls, b, fl, sl);
    }

    /** matrix[fl][sl] = next, clearing the bits of a list that runs empty. */
    method PopHead(ghost ls: Lists, next: int, fl: int, sl: int)
      requires AllClasses(ls) && Heads(ls) && Bits(ls) && InMatrix(Class(fl, sl)) && Unrepeated(ls)
      requires ls[Class(fl, sl)] != [] && next == Successor(ls[Class(fl, sl)], 0)
      requires forall x {:trigger x in ls[Class(fl, sl)]} :: x in ls[Class(fl, sl)] ==> x > 0
      modifies this`fl_bitmap, sl_bitmap, matrix
      ensures var ms := Drop(ls, Class(fl, sl), ls[Class(fl, sl)][0]); Heads(ms) && Bits(ms)
    {
      ghost var c := Class(fl, sl);
      ghost var ms := Drop(ls, c, ls[c][0]);
      assert ms[c] == ls[c][1..];
      if |ls[c]| > 1 { assert ls[c][1] in ls[c]; }
      assert forall d {:trigger ms[d]} :: InMatrix(d) && d != c ==> ms[d] == ls[d];
      matrix[fl, sl] := next;
      if matrix[fl, sl] == 0 {
        ClearBits(ls, ms, fl, sl);
      }
    }

    /** The stores of the extraction macros: join the neighbours, clear b. */
    method Unlink(ghost t: Blocks, ghost ls: Lists, b: int, prev: int, next: int, ghost c: Class, ghost i: int)
      requires AllThreaded(mem, ls) && Unrepeated(ls) && Members(t, ls) && Tiled(t, h.first, h.end)
      requires c in ls && 0 <= i < |ls[c]| && b == ls[c][i]
      requires prev == Predecessor(ls[c], i) && next == Successor(ls[c], i)
      modifies this`mem
      ensures AllThreaded(mem, Drop(ls, c, b))
      ensures SameHeaders(t, old(mem), mem) && SamePayload(t, old(mem), mem)
    {
      TiledIsLaid(t, h.first, h.end);
      ExtractThreaded(t, mem, ls, c, i);
      if next != 0 {
        assert next in ls[c] && Next(t, next) <= h.end;
        Store(next + 8, prev);
      }
      if prev != 0 {
        assert prev in ls[c] && Next(t, prev) <= h.end;
        Store(prev + 12, next);
      }
      assert b in ls[c] && Next(t, b) <= h.end;
      Store(b + 8, 0);
      Store(b + 12, 0);
    }

    /** EXTRACT_BLOCK_HDR: the head of a list leaves it. */
    method ExtractBlockHdr(ghost t: Blocks, ghost ls: Lists, b: int, fl: int, sl: int)
      requires Index(ls) && Members(t, ls) && Tiled(t, h.first, h.end)
      requires InMatrix(Class(fl, sl)) && ls[Class(fl, sl)] != [] && b == ls[Class(fl, sl)][0]
      modifies this`mem, this`fl_bitmap, sl_bitmap, matrix
      ensures Index(Drop(ls, Class(fl, sl), b))
      ensures SameHeaders(t, old(mem), mem) && SamePayload(t, old(mem), mem)
    {
      ghost var c := Class(fl, sl);
      assert b in ls[c] && Next(t, b) <= h.end;
      assert FreeNext(mem, ls[c][0]) == Successor(ls[c], 0);
      var next := Load(b + 12);
      WithoutMembers(ls[c], b);
      Unlink(t, ls, b, 0, next, c, 0);
      PopHead(ls, next, fl, sl);
    }

    /** EXTRACT_BLOCK: a block leaves its list from any position. */
    method ExtractBlock(ghost t: Blocks, ghost ls: Lists, b: int, fl: int, sl: int)
      requires Index(ls) && Members(t, ls) && Tiled(t, h.first, h.end)
      requires InMatrix(Class(fl, sl)) && b in ls[Class(fl, sl)]
      modifies this`mem, this`fl_bitmap, sl_bitmap, matrix
      ensures Index(Drop(ls, Class(fl, sl), b))
      ensures SameHeaders(t, old(mem), mem) && SamePayload(t, old(mem), mem)
    {
      ghost var c := Class(fl, sl);
      ghost var i :| 0 <= i < |ls[c]| && ls[c][i] == b;
      assert Next(t, b) <= h.end;
      assert FreeNext(mem, ls[c][i]) == Successor(ls[c], i);
      var prev, next := Load(b + 8), Load(b + 12);
      WithoutMembers(ls[c], b);
      Unlink(t, ls, b, prev, next, c, i);
      if matrix[fl, sl] == b {
        PopHead(ls, next, fl, sl);
      } else {
        WithoutIsCut(ls[c], i);
        assert ls[c][0] in Drop(ls, c, b)[c];
      }
    }

    // ---------- headers ----------

    method StoreHeader(ghost t: Blocks, ghost ls: Lists, x: int, w: int, v: nat)
      requires Index(ls) && Members(t, ls) && Tiled(t, h.first, h.end)
      requires x in t && (w == x || w == x + 4)
      modifies this`mem
      ensures mem == old(mem)[w := v]
      ensures Index(ls) && SamePayload(t, old(mem), mem) && SameOtherHeaders(t, old(mem), mem, x)
    {
      TiledIsLaid(t, h.first, h.end);
      HeaderStore(t, mem, ls, x, w, v);
      Store(w, v);
    }

    /** tmp_b->size = tmp_size | FREE_BLOCK | PREV_USED; next_b->prev_hdr = tmp_b; and, in
        realloc_ex, next_b->size |= PREV_FREE. */
    method WriteRest(ghost t: Blocks, ghost ls: Lists, tmpB: int, tmpSize: nat, nextB: int, mark: bool,
                     ghost size: int, ghost p0: bool)
      requires Index(ls) && Members(t, ls) && Tiled(t, h.first, h.end)
      requires tmpB in t && nextB in t && tmpB != nextB && IsSize(tmpSize) && IsSize(size)
      requires SizeWord(mem, nextB) == Word(size, false, p0) && (p0 || mark)
      modifies this`mem
      ensures Index(ls) && SamePayload(t, old(mem), mem) && HeadersKept(t, old(mem), mem, {tmpB, nextB})
      ensures SizeWord(mem, tmpB) == Word(tmpSize, true, false)
      ensures SizeWord(mem, nextB) == Word(size, false, true) && PrevHdr(mem, nextB) == tmpB
    {
      SetFlags(tmpSize, false, false);
      SetFlags(tmpSize, true, false);
      SetFlags(size, false, p0);
      StoreHeader(t, ls, tmpB, tmpB + 4, Set(Set(tmpSize, FREE_BLOCK), 0));
      StoreHeader(t, ls, nextB, nextB, tmpB);
      if mark {
        StoreHeader(t, ls, nextB, nextB + 4, Set(Load(nextB + 4), PREV_FREE));
      }
    }

    /** MAPPING_INSERT(tmp_size), INSERT_BLOCK(tmp_b), then b->size = n | (b->size & PREV_STATE). */
    method ListRest(ghost t: Blocks, ghost ls: Lists, b: int, n: nat, tmpB: int, tmpSize: nat,
                    ghost s0: int, ghost f0: bool, ghost p: bool)
      requires Index(ls) && Tiled(t, h.first, h.end) && Members(t, ls)
      requires forall c {:trigger ls[c]} :: c in ls ==> tmpB !in ls[c]
      requires b in t && IsFree(t, tmpB) && tmpSize == t[tmpB].size && tmpSize <= WORD_MAX
      requires InMatrix(Home(t, tmpB)) && Members(t, Push(ls, Home(t, tmpB), tmpB))
      requires IsSize(n) && IsSize(s0) && SizeWord(mem, b) == Word(s0, f0, p)
      modifies this`mem, this`fl_bitmap, sl_bitmap, matrix
      ensures Index(Push(ls, Home(t, tmpB), tmpB))
      ensures SamePayload(t, old(mem), mem) && SameOtherHeaders(t, old(mem), mem, b)
      ensures SizeWord(mem, b) == Word(n, false, p) && PrevHdr(mem, b) == old(PrevHdr(mem, b))
    {
      var c := MappingInsert(tmpSize);
      InsertBlock(t, ls, tmpB, c.fl, c.sl);
      ReadFlags(s0, f0, p);
      SetFlags(n, false, false);
      assert SizeWord(mem, b) == Word(s0, f0, p);
      var w := Set(n, PrevFreeBit(Load(b + 4)));
      assert w == Word(n, false, p);
      StoreHeader(t, Push(ls, c, tmpB), b, b + 4, w);
    }

    /** All stores of a cut, on the tiling t that it produces. */
    method WriteCut(ghost t: Blocks, ghost ls: Lists, b: int, n: nat, tmpB: int, tmpSize: nat, nextB: int, mark: bool,
                    ghost s0: int, ghost f0: bool, ghost p: bool, ghost size: int, ghost p0: bool)
      requires Index(ls) && Tiled(t, h.first, h.end) && Members(t, ls)
      requires forall c {:trigger ls[c]} :: c in ls ==> tmpB !in ls[c]
      requires b in t && IsFree(t, tmpB) && tmpSize == t[tmpB].size && IsSize(tmpSize)
      requires InMatrix(Home(t, tmpB)) && Members(t, Push(ls, Home(t, tmpB), tmpB))
      requires nextB in t && b != tmpB && b != nextB && tmpB != nextB && IsSize(n) && IsSize(s0) && IsSize(size)
      requires SizeWord(mem, b) == Word(s0, f0, p)
      requires SizeWord(mem, nextB) == Word(size, false, p0) && (p0 || mark)
      modifies this`mem, this`fl_bitmap, sl_bitmap, matrix
      ensures Index(Push(ls, Home(t, tmpB), tmpB)) && SamePayload(t, old(mem), mem)
      ensures HeadersKept(t, old(mem), mem, {b, tmpB, nextB})
      ensures SizeWord(mem, b) == Word(n, false, p) && PrevHdr(mem, b) == PrevHdr(old(mem), b)
      ensures SizeWord(mem, tmpB) == Word(tmpSize, true, false)
      ensures SizeWord(mem, nextB) == Word(size, false, true) && PrevHdr(mem, nextB) == tmpB
    {
      WriteRest(t, ls, tmpB, tmpSize, nextB, mark, size, p0);
      assert SizeWord(mem, b) == Word(s0, f0, p);
      ListRest(t, ls, b, n, tmpB, tmpSize, s0, f0, p);
    }

    /** The part of malloc_ex and realloc_ex that cuts a block in two: the header of the rest, its
        list, and last the size of b. */
    method CutBlock(ghost g: State, b: int, n: nat, tmpSize: nat, nextB: int, mark: bool,
                    ghost s0: int, ghost f0: bool, ghost p0: bool)
      requires WellFormed(g) && Live(g, b) && g.first == h.first && g.end == h.end
      requires nextB == Next(g.bs, b) && !IsFree(g.bs, nextB)
      requires n >= MIN_BLOCK_SIZE && n % 8 == 0 && tmpSize == g.bs[b].size - n - BHDR_OVERHEAD >= MIN_BLOCK_SIZE
      requires nextB in g.bs && Home(Split(g.bs, b, n), b + BHDR_OVERHEAD + n) in g.ls
      requires Index(g.ls) && Headers(mem, g.bs, {b, nextB})
      requires IsSize(s0) && SizeWord(mem, b) == Word(s0, f0, AfterFree(g.bs, b))
      requires AfterFree(g.bs, b) ==> PrevHdr(mem, b) == g.bs[b].prev
      requires IsSize(g.bs[nextB].size)
      requires SizeWord(mem, nextB) == Word(g.bs[nextB].size, false, p0) && (p0 || mark)
      modifies this`mem, this`fl_bitmap, sl_bitmap, matrix
      ensures Index(Carve(g, b, n).ls) && Headers(mem, Carve(g, b, n).bs, {})
      ensures SamePayload(Carve(g, b, n).bs, old(mem), mem)
    {
      hide MappingInsert, And, Or, Index, Tiled, Members, Headers, SamePayload, HeadersKept, Split, Carve;
      var tmpB := b + BHDR_OVERHEAD + n;
      CutReady(g, b, n);
      CutSizes(g.bs[b].size, n);
      hide IsSize;
      WriteCut(Split(g.bs, b, n), g.ls, b, n, tmpB, tmpSize, nextB, mark, s0, f0, AfterFree(g.bs, b),
               g.bs[nextB].size, p0);
      CutHeaders(g, b, n, old(mem), mem);
    }

    // ---------- the calls ----------

    ghost predicate Valid()
      reads this`mem, this`fl_bitmap, this`h, this`tlsf_signature, sl_bitmap, matrix
    {
      tlsf_signature == TLSF_SIGNATURE && WellFormed(h) && Index(h.ls) && Headers(mem, h.bs, {})
    }

    /** next_b->size &= ~PREV_FREE; b->size &= ~FREE_BLOCK. */
    method UseWhole(ghost t: Blocks, ghost ls: Lists, b: int, nextB: int, ghost size: int, ghost p: bool)
      requires Index(ls) && InListsOf(t, ls) && b in t && nextB in t && nextB == Next(t, b) && nextB != b
      requires t[b].size == size && !t[b].free && !t[nextB].free && IsSize(size) && IsSize(t[nextB].size)
      requires Headers(mem, t, {b, nextB}) && p == AfterFree(t, b)
      requires SizeWord(mem, b) == Word(size, true, p) && (p ==> PrevHdr(mem, b) == t[b].prev)
      requires SizeWord(mem, nextB) == Word(t[nextB].size, false, true) && Prev(t, nextB) == b
      modifies this`mem
      ensures Index(ls) && Headers(mem, t, {}) && SamePayload(t, old(mem), mem)
    {
      ClearFlags(t[nextB].size, false, true);
      ClearFlags(size, true, p);
      StoreHeader(t, ls, nextB, nextB + 4, Clear(Load(nextB + 4), PREV_FREE));
      assert SizeWord(mem, b) == Word(size, true, p);
      StoreHeader(t, ls, b, b + 4, Clear(Load(b + 4), FREE_BLOCK));
      PatchHeaders(old(mem), mem, t, b, nextB);
    }

    ghost predicate InListsOf(t: Blocks, ls: Lists)
      reads this`h
    {
      Members(t, ls) && Tiled(t, h.first, h.end)
    }

    /** The heap has become g: every word of memory says so already. */
    ghost method Commit(g: State)
      requires tlsf_signature == TLSF_SIGNATURE && WellFormed(g) && Index(g.ls) && Headers(mem, g.bs, {})
      modifies this`h
      ensures Valid() && h == g
    {
      h := g;
    }

    /** The tail of malloc_ex: cut the block if the rest can stand alone, else use all of it. */
    method CutOrUse(ghost g: State, b: int, size: nat)
      requires WellFormed(h) && IsFree(h.bs, b)
      requires g.first == h.first && g.end == h.end && g.bs == Mark(h.bs, b, false)
      requires WellFormed(g) && Live(g, b) && !IsFree(g.bs, Next(g.bs, b))
      requires size >= MIN_BLOCK_SIZE && size % 8 == 0 && size <= g.bs[b].size
      requires Index(g.ls) && Headers(mem, h.bs, {})
      modifies this`mem, this`fl_bitmap, sl_bitmap, matrix
      ensures Index(Trim(g, b, size).ls) && Headers(mem, Trim(g, b, size).bs, {})
      ensures SamePayload(Trim(g, b, size).bs, old(mem), mem)
    {
      ClaimHeaders(mem, h.bs, h.first, h.end, b);
      SizesFit(h.bs, h.first, h.end, b);
      ReadSize(h.bs[b].size, true, AfterFree(g.bs, b));
      var nextB := b + BHDR_OVERHEAD + SizeBits(Load(b + 4));
      var tmpSize := SizeBits(Load(b + 4)) - size;
      SizesFit(h.bs, h.first, h.end, nextB);
      if tmpSize >= SIZEOF_BHDR {
        CutReady(g, b, size);
        CutBlock(g, b, size, tmpSize - BHDR_OVERHEAD, nextB, false, h.bs[b].size, true, true);
      } else {
        UseWhole(g.bs, g.ls, b, nextB, h.bs[b].size, AfterFree(g.bs, b));
      }
    }

    /** EXTRACT_BLOCK_HDR and the tail of malloc_ex, for the block the search found. */
    method ServeBlock(b: int, fl: int, sl: int, size: nat, ghost g: State)
      requires Valid() && InMatrix(Class(fl, sl)) && h.ls[Class(fl, sl)] != [] && b == h.ls[Class(fl, sl)][0]
      requires IsFree(h.bs, b) && g == Claim(h, Class(fl, sl)) && g.ls == Drop(h.ls, Class(fl, sl), b)
      requires WellFormed(g) && Live(g, b) && !IsFree(g.bs, Next(g.bs, b))
      requires MIN_BLOCK_SIZE <= size <= h.bs[b].size && size % 8 == 0
      requires SameLive(h, Trim(g, b, size), b)
      modifies this`mem, this`fl_bitmap, this`h, sl_bitmap, matrix
      ensures Valid() && h == Trim(g, b, size)
      ensures SameLivePayload(old(h), old(mem), mem, b)
    {
      hide MappingInsert, MappingSearch, And, Or;
      ExtractBlockHdr(h.bs, h.ls, b, fl, sl);
      ghost var m := mem;
      KeepHeaders(h.bs, old(mem), m, {});
      CutOrUse(g, b, size);
      LivePayload(h, h, old(mem), m, b);
      LivePayload(h, Trim(g, b, size), m, mem, b);
      LivePayloadTrans(h, old(mem), m, mem, b);
      Commit(Trim(g, b, size));
    }

    /** (size < MIN_BLOCK_SIZE) ? MIN_BLOCK_SIZE : ROUNDUP_SIZE(size). */
    method RoundRequest(size0: nat) returns (n: nat)
      requires size0 <= WORD_MAX - 7
      ensures n == Request(size0)
    {
      RoundUpSizeIs(size0);
      n := if size0 < MIN_BLOCK_SIZE then MIN_BLOCK_SIZE else RoundUpSize(size0);
    }

    /** malloc_ex. */
    method MallocEx(size0: nat) returns (ptr: int)
      requires Valid() && size0 <= MAX_REQUEST
      modifies this`mem, this`fl_bitmap, this`h, sl_bitmap, matrix
      ensures Valid()
      ensures var (g, b) := Malloc(old(h), size0);
        h == g && ptr == Address(b)
      ensures ptr == 0 ==> mem == old(mem)
      ensures SameLivePayload(old(h), old(mem), mem, 0)
    {
      hide MappingInsert, MappingSearch, And, Or;
      var n := RoundRequest(size0);
      var (size, from) := MappingSearch(n);
      SearchReady(h, n);
      var b, fl, sl := FindSuitableBlock(h.ls, from.fl, from.sl);
      if b == 0 {
        MallocFindsNone(h, size0);
        return 0;
      }
      ghost var c := Class(fl, sl);
      ServeReady(h, n, c);
      MallocFinds(h, size0, c);
      ServeBlock(b, fl, sl, size, Claim(h, c));
      ptr := b + BHDR_OVERHEAD;
    }

    // ---------- free_ex ----------

    method ClearLinks(ghost t: Blocks, ghost ls: Lists, b: int)
      requires Index(ls) && InListsOf(t, ls) && IsFree(t, b)
      requires forall c {:trigger ls[c]} :: c in ls ==> b !in ls[c]
      modifies this`mem
      ensures Index(ls) && SameHeaders(t, old(mem), mem) && SamePayload(t, old(mem), mem)
    {
      hide Threaded;
      TiledIsLaid(t, h.first, h.end);
      assert Next(t, b) <= h.end;
      LinkStoreOff(t, mem, ls, b, b + 8, 0);
      Store(b + 8, 0);
      LinkStoreOff(t, mem, ls, b, b + 12, 0);
      Store(b + 12, 0);
      SameTrans(t, old(mem), old(mem)[b + 8 := 0], mem);
    }

    /** A block on its way to be freed: its own header says free, and the PREV_FREE flag of the
        block after it is yet to be set. */
    ghost predicate Pending(g: State, b: int, p0: bool)
      reads this`mem, this`fl_bitmap, this`h, sl_bitmap, matrix
    {
      && WellFormed(g) && Live(g, b) && g.first == h.first && g.end == h.end
      && Index(g.ls) && Next(g.bs, b) in g.bs
      && Headers(mem, g.bs, {b, Next(g.bs, b)})
      && IsSize(g.bs[b].size) && SizeWord(mem, b) == Word(g.bs[b].size, true, AfterFree(g.bs, b))
      && (AfterFree(g.bs, b) ==> PrevHdr(mem, b) == g.bs[b].prev)
      && var nb := Next(g.bs, b);
         IsSize(g.bs[nb].size) && SizeWord(mem, nb) == Word(g.bs[nb].size, g.bs[nb].free, p0)
    }

    /** What free_ex needs of its block: the PREV_FREE flag of the block after may be stale, as it
        is when init_memory_pool frees the first block. */
    ghost predicate Freeable(b: int, p0: bool)
      reads this`mem, this`fl_bitmap, this`h, sl_bitmap, matrix
    {
      && WellFormed(h) && Live(h, b) && Index(h.ls) && Next(h.bs, b) in h.bs
      && Headers(mem, h.bs, {Next(h.bs, b)})
      && var nb := Next(h.bs, b);
         IsSize(h.bs[nb].size) && SizeWord(mem, nb) == Word(h.bs[nb].size, h.bs[nb].free, p0)
    }

    lemma LiveIsFreeable(b: int)
      requires Valid() && Live(h, b)
      ensures Freeable(b, false)
    {
      BeginResize(b);
    }

    /** b->size |= FREE_BLOCK and both free pointers to NULL. */
    method BeginFree(b: int, ghost p0: bool)
      requires Freeable(b, p0)
      modifies this`mem
      ensures Pending(h, b, p0) && SamePayload(Mark(h.bs, b, true), old(mem), mem)
    {
      hide MappingInsert, MappingSearch, And, Or, Index, Threaded;
      ghost var t := Mark(h.bs, b, true);
      MarkTiled(h.bs, h.first, h.end, b, true);
      OffList(h.bs, h.ls, t, b);
      SizesFit(h.bs, h.first, h.end, b);
      assert HeaderAt(mem, h.bs, b);
      SetFlags(h.bs[b].size, false, AfterFree(h.bs, b));
      StoreHeader(t, h.ls, b, b + 4, Set(Load(b + 4), FREE_BLOCK));
      ClearLinks(t, h.ls, b);
      assert HeadersKept(h.bs, old(mem), mem, {b});
      ForgetHeaders(h.bs, old(mem), mem, b, Next(h.bs, b));
    }

    /** The stores of a merge with the block after: tmp_b leaves its list, b takes its space. */
    method TakeNext(ghost t: Blocks, ghost ls: Lists, b: int, tmpB: int, size: nat,
                    ghost s0: nat, ghost f0: bool, ghost p: bool)
      requires Index(ls) && InListsOf(t, ls) && b in t && IsFree(t, tmpB) && tmpB != b
      requires size == t[tmpB].size <= WORD_MAX && InMatrix(Home(t, tmpB)) && tmpB in ls[Home(t, tmpB)]
      requires SizeWord(mem, b) == Word(s0, f0, p)
      modifies this`mem, this`fl_bitmap, sl_bitmap, matrix
      ensures Index(Drop(ls, Home(t, tmpB), tmpB))
      ensures SamePayload(t, old(mem), mem) && HeadersKept(t, old(mem), mem, {b})
      ensures SizeWord(mem, b) == Word(s0 + size + BHDR_OVERHEAD, f0, p) && PrevHdr(mem, b) == old(PrevHdr(mem, b))
    {
      var c := MappingInsert(size);
      ExtractBlock(t, ls, tmpB, c.fl, c.sl);
      ghost var ms := Drop(ls, c, tmpB);
      WithoutMembers(ls[c], tmpB);
      assert SizeWord(mem, b) == Word(s0, f0, p);
      StoreHeader(t, ms, b, b + 4, Load(b + 4) + size + BHDR_OVERHEAD);
    }

    /** tmp_b = GET_NEXT_BLOCK(b), and whether it is free. */
    method PeekNext(b: int, ghost p0: bool) returns (tmpB: int, free: bool)
      requires Pending(h, b, p0)
      ensures tmpB == Next(h.bs, b) && free == h.bs[tmpB].free
    {
      ghost var nb := Next(h.bs, b);
      ReadSize(h.bs[b].size, true, AfterFree(h.bs, b));
      tmpB := b + BHDR_OVERHEAD + SizeBits(Load(b + 4));
      ReadFlags(h.bs[nb].size, h.bs[nb].free, p0);
      free := FreeBit(Load(tmpB + 4)) != 0;
    }

    /** Merge with the block after, if that is free. */
    method MergeWithNext(b: int, ghost p0: bool)
      requires Pending(h, b, p0)
      modifies this`mem, this`fl_bitmap, sl_bitmap, matrix
      ensures Pending(Grow(h, b), b, p0 || IsFree(h.bs, Next(h.bs, b)))
      ensures SamePayload(Mark(h.bs, b, true), old(mem), mem)
    {
      hide MappingInsert, And, Index, Threaded;
      var tmpB, free := PeekNext(b, p0);
      if free {
        assert IsFree(h.bs, tmpB) && Home(h.bs, tmpB) in h.ls && tmpB in h.ls[Home(h.bs, tmpB)];
        ReadSize(h.bs[tmpB].size, true, p0);
        MarkReady(h, b);
        MergeNextWellFormed(h, b);
        TakeNext(Mark(h.bs, b, true), h.ls, b, tmpB, SizeBits(Load(tmpB + 4)), h.bs[b].size, true, AfterFree(h.bs, b));
        AbsorbSizes(h.bs, h.first, h.end, old(mem), mem, b);
        AbsorbHeaders(h.bs, h.first, h.end, old(mem), mem, b);
      }
    }

    /** The end of free_ex: list the block and tell the block after. */
    method Finish(ghost t: Blocks, ghost ls: Lists, b: int, ghost p: bool, ghost p0: bool)
      requires Index(ls) && InListsOf(t, ls) && IsFree(t, b) && IsSize(t[b].size) && InMatrix(Home(t, b))
      requires forall c {:trigger ls[c]} :: c in ls ==> b !in ls[c]
      requires Next(t, b) in t && Next(t, b) != b && Prev(t, Next(t, b)) == b && !IsFree(t, Next(t, b))
      requires IsSize(t[Next(t, b)].size) && SizeWord(mem, Next(t, b)) == Word(t[Next(t, b)].size, false, p0)
      requires SizeWord(mem, b) == Word(t[b].size, true, p) && HeaderAt(mem, t, b)
      requires Headers(mem, t, {b, Next(t, b)}) && Members(t, Push(ls, Home(t, b), b))
      modifies this`mem, this`fl_bitmap, sl_bitmap, matrix
      ensures Index(Push(ls, Home(t, b), b)) && Headers(mem, t, {})
      ensures SamePayload(t, old(mem), mem)
    {
      ReadSize(t[b].size, true, p);
      var c := MappingInsert(SizeBits(Load(b + 4)));
      InsertBlock(t, ls, b, c.fl, c.sl);
      KeepHeaders(t, old(mem), mem, {b, Next(t, b)});
      ghost var m := mem;
      assert HeaderAt(mem, t, b);
      NotifyNext(t, Push(ls, c, b), b, p, p0);
    }

    /** tmp_b = GET_NEXT_BLOCK(b); tmp_b->size |= PREV_FREE; tmp_b->prev_hdr = b. */
    method NotifyNext(ghost t: Blocks, ghost ls: Lists, b: int, ghost p: bool, ghost p0: bool)
      requires Index(ls) && InListsOf(t, ls) && IsFree(t, b) && IsSize(t[b].size)
      requires Next(t, b) in t && Next(t, b) != b && Prev(t, Next(t, b)) == b && !IsFree(t, Next(t, b))
      requires IsSize(t[Next(t, b)].size) && SizeWord(mem, Next(t, b)) == Word(t[Next(t, b)].size, false, p0)
      requires SizeWord(mem, b) == Word(t[b].size, true, p) && HeaderAt(mem, t, b)
      requires Headers(mem, t, {b, Next(t, b)})
      modifies this`mem
      ensures Index(ls) && Headers(mem, t, {}) && SamePayload(t, old(mem), mem)
    {
      ReadSize(t[b].size, true, p);
      var tmpB := b + BHDR_OVERHEAD + SizeBits(Load(b + 4));
      SetFlags(t[tmpB].size, false, p0);
      StoreHeader(t, ls, tmpB, tmpB + 4, Set(Load(tmpB + 4), PREV_FREE));
      StoreHeader(t, ls, tmpB, tmpB, b);
      PatchHeaders(old(mem), mem, t, b, tmpB);
    }

    /** No free block before: b itself goes on a list. */
    method ReleaseBlock(b: int, ghost g: State, ghost p0: bool)
      requires Pending(g, b, p0) && !IsFree(g.bs, Next(g.bs, b)) && !IsFree(g.bs, Prev(g.bs, b))
      requires InMatrix(Home(Mark(g.bs, b, true), b))
      modifies this`mem, this`fl_bitmap, sl_bitmap, matrix
      ensures Index(Release(g, b).ls) && Headers(mem, Release(g, b).bs, {})
      ensures SameLivePayload(g, old(mem), mem, b)
    {
      ghost var t := Mark(g.bs, b, true);
      ReleaseReady(g, b);
      MarkedHeaders(mem, g.bs, g.first, g.end, b);
      Finish(t, g.ls, b, AfterFree(g.bs, b), p0);
      LivePayload(g, Release(g, b), old(mem), mem, b);
    }

    /** The stores of a merge with the block before: tmp_b leaves its list and takes the space of b. */
    method TakePrev(ghost t: Blocks, ghost ls: Lists, b: int, tmpB: int, ghost s1: nat, ghost p1: bool,
                    ghost s0: nat, ghost p0: bool)
      requires Index(ls) && InListsOf(t, ls) && b in t && IsFree(t, tmpB) && tmpB != b
      requires IsSize(s0) && IsSize(s1) && s1 == t[tmpB].size
      requires InMatrix(Home(t, tmpB)) && tmpB in ls[Home(t, tmpB)]
      requires SizeWord(mem, tmpB) == Word(s1, true, p1) && SizeWord(mem, b) == Word(s0, true, p0)
      modifies this`mem, this`fl_bitmap, sl_bitmap, matrix
      ensures Index(Drop(ls, Home(t, tmpB), tmpB))
      ensures SamePayload(t, old(mem), mem) && HeadersKept(t, old(mem), mem, {tmpB})
      ensures SizeWord(mem, tmpB) == Word(s1 + s0 + BHDR_OVERHEAD, true, p1)
      ensures PrevHdr(mem, tmpB) == old(PrevHdr(mem, tmpB))
    {
      hide MappingInsert, MappingSearch, And, Or, Threaded;
      ReadSize(s1, true, p1);
      ReadSize(s0, true, p0);
      var c := MappingInsert(SizeBits(Load(tmpB + 4)));
      ExtractBlock(t, ls, tmpB, c.fl, c.sl);
      WithoutMembers(ls[c], tmpB);
      assert SizeWord(mem, tmpB) == Word(s1, true, p1) && SizeWord(mem, b) == Word(s0, true, p0);
      StoreHeader(t, Drop(ls, c, tmpB), tmpB, tmpB + 4, Load(tmpB + 4) + SizeBits(Load(b + 4)) + BHDR_OVERHEAD);
    }

    /** A free block before: it takes the space of b and moves to the list of its new class. */
    method MergeWithPrev(b: int, ghost g: State, ghost p0: bool)
      requires Pending(g, b, p0) && !IsFree(g.bs, Next(g.bs, b)) && IsFree(g.bs, Prev(g.bs, b))
      requires PrevIsMergeable(g, Prev(g.bs, b))
      modifies this`mem, this`fl_bitmap, sl_bitmap, matrix
      ensures Index(MergePrev(g, Prev(g.bs, b)).ls) && Headers(mem, MergePrev(g, Prev(g.bs, b)).bs, {})
      ensures SameLivePayload(g, old(mem), mem, b)
    {
      hide MappingInsert, MappingSearch, And, Or, Index, Threaded;
      ghost var p := Prev(g.bs, b);
      var tmpB := Load(b);
      PrevReady(g, b);
      MarkReady(g, b);
      assert HeaderAt(mem, g.bs, p);
      SizesFit(g.bs, g.first, g.end, p);
      TakePrev(Mark(g.bs, b, true), g.ls, b, tmpB, g.bs[p].size, AfterFree(g.bs, p), g.bs[b].size, true);
      LivePayload(g, g.(bs := Mark(g.bs, b, true)), old(mem), mem, b);
      AbsorbHeaders(g.bs, g.first, g.end, old(mem), mem, p);
      PrevFinish(g, old(mem), mem, b, p);
      ghost var m := mem;
      Finish(Absorb(g.bs, p), Drop(g.ls, Home(g.bs, p), p), tmpB, AfterFree(g.bs, p), p0);
      LivePayload(g, MergePrev(g, p), m, mem, b);
      LivePayloadTrans(g, old(mem), m, mem, b);
    }

    /** The rest of free_ex, with the block after b already merged. */
    method MergeOrRelease(b: int, ghost g: State, ghost p0: bool)
      requires Pending(g, b, p0) && !IsFree(g.bs, Next(g.bs, b)) && Grow(g, b) == g
      modifies this`mem, this`fl_bitmap, sl_bitmap, matrix
      ensures Index(Free(g, b).ls) && Headers(mem, Free(g, b).bs, {})
      ensures SameLivePayload(g, old(mem), mem, b)
    {
      ReadFlags(g.bs[b].size, true, AfterFree(g.bs, b));
      if PrevFreeBit(Load(b + 4)) != 0 {
        PrevReady(g, b);
        MergeWithPrev(b, g, p0);
      } else {
        ReleaseReady(g, b);
        ReleaseBlock(b, g, p0);
      }
    }

    /** The first half of free_ex: b says free and has swallowed a free block after it. */
    method MarkAndMerge(b: int, ghost p0: bool)
      requires Freeable(b, p0)
      modifies this`mem, this`fl_bitmap, sl_bitmap, matrix
      ensures Pending(Grow(h, b), b, p0 || IsFree(h.bs, Next(h.bs, b)))
      ensures SameLivePayload(h, old(mem), mem, b)
    {
      BeginFree(b, p0);
      ghost var m := mem;
      MergeWithNext(b, p0);
      MarkedPayload(h, old(mem), m, mem, b);
    }

    method FreeBlock(b: int, ghost p0: bool)
      requires Freeable(b, p0)
      modifies this`mem, this`fl_bitmap, sl_bitmap, matrix
      ensures Index(Free(h, b).ls) && Headers(mem, Free(h, b).bs, {})
      ensures SameLivePayload(h, old(mem), mem, b)
    {
      MarkAndMerge(b, p0);
      ghost var g, m := Grow(h, b), mem;
      FreeOfGrown(h, b);
      MergeOrRelease(b, g, p0 || IsFree(h.bs, Next(h.bs, b)));
      FreedPayload(h, g, old(mem), m, mem, b);
    }

    method FreeLive(b: int, ghost p0: bool)
      requires tlsf_signature == TLSF_SIGNATURE && Freeable(b, p0)
      modifies this`mem, this`fl_bitmap, this`h, sl_bitmap, matrix
      ensures Valid() && h == Free(old(h), b)
      ensures SameLivePayload(old(h), old(mem), mem, b)
    {
      hide Index, Headers;
      FreeBlock(b, p0);
      Commit(Free(h, b));
    }

    /** free_ex. */
    method FreeEx(ptr: int)
      requires Valid() && (ptr != 0 ==> Live(h, ptr - BHDR_OVERHEAD))
      modifies this`mem, this`fl_bitmap, this`h, sl_bitmap, matrix
      ensures Valid()
      ensures ptr == 0 ==> h == old(h) && mem == old(mem)
      ensures ptr != 0 ==> h == Free(old(h), ptr - BHDR_OVERHEAD)
      ensures SameLivePayload(old(h), old(mem), mem, ptr - BHDR_OVERHEAD)
    {
      if ptr == 0 { return; }
      LiveIsFreeable(ptr - BHDR_OVERHEAD);
      FreeLive(ptr - BHDR_OVERHEAD, false);
    }

    // ---------- realloc_ex ----------

    /** A used block about to be cut: its size word may still be the old one, and the PREV_FREE
        flag of the block after it may still be set. */
    ghost predicate Resizing(g: State, b: int, s0: int, p0: bool)
      reads this`mem, this`fl_bitmap, this`h, sl_bitmap, matrix
    {
      && WellFormed(g) && Live(g, b) && g.first == h.first && g.end == h.end
      && Index(g.ls) && Next(g.bs, b) in g.bs && !IsFree(g.bs, Next(g.bs, b))
      && Headers(mem, g.bs, {b, Next(g.bs, b)})
      && IsSize(s0) && SizeWord(mem, b) == Word(s0, false, AfterFree(g.bs, b))
      && (AfterFree(g.bs, b) ==> PrevHdr(mem, b) == g.bs[b].prev)
      && var nb := Next(g.bs, b);
         IsSize(g.bs[nb].size) && SizeWord(mem, nb) == Word(g.bs[nb].size, false, p0)
    }

    /** MAPPING_INSERT and EXTRACT_BLOCK of the free block after b. */
    method DetachNext(b: int, nextB: int, size: nat)
      requires Valid() && Live(h, b) && nextB == Next(h.bs, b) && IsFree(h.bs, nextB) && size == h.bs[nextB].size
      modifies this`mem, this`fl_bitmap, sl_bitmap, matrix
      ensures Resizing(Grow(h, b), b, h.bs[b].size, true)
      ensures SamePayload(h.bs, old(mem), mem)
    {
      MergeNextWellFormed(h, b);
      HomeIsValid(h.bs, h.first, h.end, nextB);
      SizesFit(h.bs, h.first, h.end, b);
      assert HeaderAt(mem, h.bs, b);
      var c := MappingInsert(size);
      ExtractBlock(h.bs, h.ls, nextB, c.fl, c.sl);
      AbsorbSizes(h.bs, h.first, h.end, old(mem), mem, b);
      AbsorbHeaders(h.bs, h.first, h.end, old(mem), mem, b);
    }

    /** The common tail of both in-place paths of realloc_ex: cut off what is not needed. */
    method ResizeTail(ghost g: State, b: int, newSize: nat, tmpSize0: int, nextB: int, ghost s0: int, ghost p0: bool)
      requires Resizing(g, b, s0, p0) && nextB == Next(g.bs, b)
      requires MIN_BLOCK_SIZE <= newSize <= g.bs[b].size && newSize % 8 == 0 && tmpSize0 == g.bs[b].size - newSize
      requires tmpSize0 < SIZEOF_BHDR ==> s0 == g.bs[b].size && !p0
      modifies this`mem, this`fl_bitmap, sl_bitmap, matrix
      ensures Index(Trim(g, b, newSize).ls) && Headers(mem, Trim(g, b, newSize).bs, {})
      ensures SamePayload(Trim(g, b, newSize).bs, old(mem), mem)
    {
      if tmpSize0 >= SIZEOF_BHDR {
        CutReady(g, b, newSize);
        CutBlock(g, b, newSize, tmpSize0 - BHDR_OVERHEAD, nextB, true, s0, false, p0);
      } else {
        UncutHeaders(mem, g, b);
      }
    }

    /** realloc_ex to at most the present size. */
    method ShrinkBlock(b: int, newSize: nat)
      requires Valid() && Live(h, b) && MIN_BLOCK_SIZE <= newSize <= h.bs[b].size && newSize % 8 == 0
      modifies this`mem, this`fl_bitmap, sl_bitmap, matrix
      ensures newSize <= Grow(h, b).bs[b].size
      ensures Index(Trim(Grow(h, b), b, newSize).ls) && Headers(mem, Trim(Grow(h, b), b, newSize).bs, {})
      ensures SameLivePayload(h, old(mem), mem, b) && Moved(old(mem), b, mem, b, newSize)
    {
      hide MappingInsert, MappingSearch, And, Or, Index, Threaded;
      ghost var g, nb := Grow(h, b), Next(h.bs, b);
      BeginResize(b);
      ReadSize(h.bs[b].size, false, AfterFree(h.bs, b));
      ReadSize(h.bs[nb].size, h.bs[nb].free, false);
      ReadFlags(h.bs[nb].size, h.bs[nb].free, false);
      var tmpSize := SizeBits(Load(b + 4));
      var nextB := b + BHDR_OVERHEAD + tmpSize;
      if FreeBit(Load(nextB + 4)) != 0 {
        var size := SizeBits(Load(nextB + 4));
        DetachNext(b, nextB, size);
        tmpSize := tmpSize + size + BHDR_OVERHEAD;
        nextB := nextB + BHDR_OVERHEAD + size;
      }
      ghost var m := mem;
      ResizeTail(g, b, newSize, tmpSize - newSize, nextB, h.bs[b].size, IsFree(h.bs, nb));
      SameLiveTrans(h, g, Trim(g, b, newSize), b);
      InPlacePayload(h, Trim(g, b, newSize), old(mem), m, mem, b, newSize);
    }

    /** What a call knows of the headers of a live block and of the block after it. */
    lemma BeginResize(b: int)
      requires Valid() && Live(h, b)
      ensures Next(h.bs, b) in h.bs && Next(h.bs, b) > b
      ensures IsSize(h.bs[b].size) && IsSize(h.bs[Next(h.bs, b)].size)
      ensures SizeWord(mem, b) == Word(h.bs[b].size, false, AfterFree(h.bs, b))
      ensures SizeWord(mem, Next(h.bs, b)) == Word(h.bs[Next(h.bs, b)].size, h.bs[Next(h.bs, b)].free, false)
      ensures !IsFree(h.bs, Next(h.bs, b)) ==> Resizing(h, b, h.bs[b].size, false)
    {
      SizesFit(h.bs, h.first, h.end, b);
      SizesFit(h.bs, h.first, h.end, Next(h.bs, b));
      assert HeaderAt(mem, h.bs, b) && HeaderAt(mem, h.bs, Next(h.bs, b));
    }

    /** b->size += size + BHDR_OVERHEAD; next_b->prev_hdr = b; next_b->size &= ~PREV_FREE. */
    method WidenBlock(ghost g: State, b: int, size: nat, ghost s0: nat) returns (nextB: int)
      requires Resizing(g, b, s0, true) && g.bs[b].size == s0 + size + BHDR_OVERHEAD && IsSize(g.bs[b].size)
      modifies this`mem
      ensures Resizing(g, b, g.bs[b].size, false) && nextB == Next(g.bs, b)
      ensures SamePayload(g.bs, old(mem), mem)
    {
      hide MappingInsert, MappingSearch, And, Or, Index, Threaded;
      ghost var p := AfterFree(g.bs, b);
      assert Next(g.bs, b) > b;
      StoreHeader(g.bs, g.ls, b, b + 4, Load(b + 4) + size + BHDR_OVERHEAD);
      ReadSize(g.bs[b].size, false, p);
      nextB := b + BHDR_OVERHEAD + SizeBits(Load(b + 4));
      ClearFlags(g.bs[nextB].size, false, true);
      StoreHeader(g.bs, g.ls, nextB, nextB, b);
      StoreHeader(g.bs, g.ls, nextB, nextB + 4, Clear(Load(nextB + 4), PREV_FREE));
      assert HeadersKept(g.bs, old(mem), mem, {b, nextB});
      KeepHeadersBut(g.bs, old(mem), mem, b, nextB);
    }

    /** realloc_ex into the free block after. */
    method GrowBlock(b: int, newSize: nat)
      requires Valid() && Live(h, b) && IsFree(h.bs, Next(h.bs, b)) && newSize % 8 == 0
      requires h.bs[b].size < newSize <= h.bs[b].size + h.bs[Next(h.bs, b)].size
      modifies this`mem, this`fl_bitmap, sl_bitmap, matrix
      ensures newSize <= Grow(h, b).bs[b].size
      ensures Index(Trim(Grow(h, b), b, newSize).ls) && Headers(mem, Trim(Grow(h, b), b, newSize).bs, {})
      ensures SameLivePayload(h, old(mem), mem, b) && Moved(old(mem), b, mem, b, h.bs[b].size)
    {
      hide MappingInsert, MappingSearch, And, Or, Index, Threaded;
      ghost var g, nb := Grow(h, b), Next(h.bs, b);
      BeginResize(b);
      ReadSize(h.bs[b].size, false, AfterFree(h.bs, b));
      ReadSize(h.bs[nb].size, true, false);
      var nextB := b + BHDR_OVERHEAD + SizeBits(Load(b + 4));
      var size := SizeBits(Load(nextB + 4));
      DetachNext(b, nextB, size);
      ghost var m := mem;
      SizesFit(g.bs, g.first, g.end, b);
      nextB := WidenBlock(g, b, size, h.bs[b].size);
      ghost var k := mem;
      ReadSize(g.bs[b].size, false, AfterFree(g.bs, b));
      var tmpSize := SizeBits(Load(b + 4)) - newSize;
      ResizeTail(g, b, newSize, tmpSize, nextB, g.bs[b].size, false);
      GrowPayload(h, g, Trim(g, b, newSize), old(mem), m, k, mem, b, h.bs[b].size);
    }

    /** memcpy from one live block to another. */
    method CopyPayload(q: int, b: int, n: nat)
      requires Valid() && Live(h, q) && Live(h, b) && q != b && n % 4 == 0
      requires n <= h.bs[q].size && n <= h.bs[b].size
      modifies this`mem
      ensures Valid() && SameLivePayload(h, old(mem), mem, q) && Moved(old(mem), b, mem, q, n)
    {
      TiledIsLaid(h.bs, h.first, h.end);
      CopyFrame(h.bs, mem, h.ls, q, b, n);
      mem := CopyWords(mem, q + BHDR_OVERHEAD, b + BHDR_OVERHEAD, n);
      KeepHeaders(h.bs, old(mem), mem, {});
    }

    /** cpsize, memcpy and free_ex. */
    method CopyAndFree(b: int, q: int, newSize: nat) returns (ghost l: Memory)
      requires Valid() && Live(h, q) && Live(h, b) && q != b
      requires h.bs[b].size < newSize <= h.bs[q].size
      modifies this`mem, this`fl_bitmap, this`h, sl_bitmap, matrix
      ensures Valid() && h == Free(old(h), b)
      ensures Moved(old(mem), b, l, q, old(h).bs[b].size) && SameLivePayload(old(h), old(mem), l, q)
      ensures SameLivePayload(old(h), l, mem, b)
    {
      SizesFit(h.bs, h.first, h.end, b);
      assert HeaderAt(mem, h.bs, b);
      ReadSize(h.bs[b].size, false, AfterFree(h.bs, b));
      var cpSize := if SizeBits(Load(b + 4)) > newSize then newSize else SizeBits(Load(b + 4));
      CopyPayload(q, b, cpSize);
      l := mem;
      FreeEx(b + BHDR_OVERHEAD);
    }

    /** realloc_ex elsewhere: malloc_ex, memcpy, free_ex. */
    method MoveBlock(b: int, newSize: nat) returns (ptr: int)
      requires Valid() && Live(h, b) && h.bs[b].size < newSize <= MAX_REQUEST && newSize % 8 == 0
      modifies this`mem, this`fl_bitmap, this`h, sl_bitmap, matrix
      ensures Valid()
      ensures ptr == 0 ==> Malloc(old(h), newSize).1 == None && h == old(h) && mem == old(mem)
      ensures ptr != 0 ==> Malloc(old(h), newSize).1 == Some(ptr - BHDR_OVERHEAD)
      ensures ptr != 0 ==> h == Free(Malloc(old(h), newSize).0, b)
      ensures SameLivePayload(old(h), old(mem), mem, b)
      ensures ptr != 0 ==> Moved(old(mem), b, mem, ptr - BHDR_OVERHEAD, old(h).bs[b].size)
    {
      hide MappingInsert, MappingSearch, And, Or;
      ghost var h0 := h;
      ptr := MallocEx(newSize);
      if ptr == 0 { return; }
      ghost var g, m := h, mem;
      ghost var l := CopyAndFree(b, ptr - BHDR_OVERHEAD, newSize);
      MovePayload(h0, g, old(mem), m, l, mem, b, ptr - BHDR_OVERHEAD, g.bs[b].size);
    }

    /** The in-place paths of realloc_ex; false when the block has to move. */
    method ResizeInPlace(b: int, newSize: nat) returns (done: bool)
      requires Valid() && Live(h, b) && MIN_BLOCK_SIZE <= newSize && newSize % 8 == 0
      modifies this`mem, this`fl_bitmap, sl_bitmap, matrix
      ensures done <==> InPlace(h, b, newSize)
      ensures !done ==> Valid() && mem == old(mem) && h.bs[b].size < newSize
      ensures done ==> newSize <= Grow(h, b).bs[b].size
      ensures done ==> Index(Trim(Grow(h, b), b, newSize).ls) && Headers(mem, Trim(Grow(h, b), b, newSize).bs, {})
      ensures done ==> SameLivePayload(h, old(mem), mem, b) && Moved(old(mem), b, mem, b, Min(h.bs[b].size, newSize))
    {
      hide MappingInsert, MappingSearch, And, Or;
      ghost var nb := Next(h.bs, b);
      BeginResize(b);
      ReadSize(h.bs[b].size, false, AfterFree(h.bs, b));
      ReadSize(h.bs[nb].size, h.bs[nb].free, false);
      ReadFlags(h.bs[nb].size, h.bs[nb].free, false);
      var tmpSize := SizeBits(Load(b + 4));
      var nextB := b + BHDR_OVERHEAD + tmpSize;
      if newSize <= tmpSize {
        ShrinkBlock(b, newSize);
        return true;
      }
      if FreeBit(Load(nextB + 4)) != 0 {
        if newSize <= tmpSize + SizeBits(Load(nextB + 4)) {
          GrowBlock(b, newSize);
          return true;
        }
      }
      return false;
    }

    /** realloc_ex of a live block to a non-zero size, already rounded. */
    method ResizeBlock(b: int, newSize: nat) returns (ptr: int)
      requires Valid() && Live(h, b) && MIN_BLOCK_SIZE <= newSize <= WORD_MAX - 7 && newSize % 8 == 0
      requires InPlace(h, b, newSize) || newSize <= MAX_REQUEST
      modifies this`mem, this`fl_bitmap, this`h, sl_bitmap, matrix
      ensures Valid()
      ensures var (g, q) := Realloc(old(h), b, newSize);
        h == g && ptr == Address(q)
      ensures ptr == 0 ==> mem == old(mem)
      ensures SameLivePayload(old(h), old(mem), mem, b)
      ensures ptr != 0 ==> Moved(old(mem), b, mem, ptr - BHDR_OVERHEAD, Min(old(h).bs[b].size, newSize))
    {
      var done := ResizeInPlace(b, newSize);
      if done {
        Commit(Trim(Grow(h, b), b, newSize));
        ptr := b + BHDR_OVERHEAD;
      } else {
        ptr := MoveBlock(b, newSize);
      }
    }

    /** realloc_ex. */
    method ReallocEx(ptr: int, size0: nat) returns (r: int)
      requires Valid() && size0 <= WORD_MAX - 7
      requires ptr == 0 ==> size0 <= MAX_REQUEST
      requires ptr != 0 ==> Live(h, ptr - BHDR_OVERHEAD)
      requires ptr != 0 && size0 != 0 ==> InPlace(h, ptr - BHDR_OVERHEAD, Request(size0)) || size0 <= MAX_REQUEST
      modifies this`mem, this`fl_bitmap, this`h, sl_bitmap, matrix
      ensures Valid()
      ensures ptr == 0 && size0 == 0 ==> h == old(h) && mem == old(mem) && r == 0
      ensures ptr == 0 && size0 != 0 ==> h == Malloc(old(h), size0).0 && r == Address(Malloc(old(h), size0).1)
      ensures ptr != 0 && size0 == 0 ==> h == Free(old(h), ptr - BHDR_OVERHEAD) && r == 0
      ensures ptr != 0 && size0 != 0 ==> var (g, q) := Realloc(old(h), ptr - BHDR_OVERHEAD, size0);
        h == g && r == Address(q)
      ensures r == 0 && size0 != 0 ==> h == old(h) && mem == old(mem)
      ensures SameLivePayload(old(h), old(mem), mem, ptr - BHDR_OVERHEAD)
      ensures ptr != 0 && r != 0 ==>
        Moved(old(mem), ptr - BHDR_OVERHEAD, mem, r - BHDR_OVERHEAD,
              Min(old(h).bs[ptr - BHDR_OVERHEAD].size, Request(size0)))
    {
      hide WellFormed, Index, Headers, Live, InPlace, Malloc, Free, Realloc, Request, Address, SameLivePayload, Moved;
      hide Indexed, Tiled, Coalesced, Heads, Bits, AllThreaded, Unrepeated, HeaderAt, Payload;
      hide MappingInsert, MappingSearch;
      hide And, Or, Bit, Pow2, Shl, Shr, Rd, IsFree, Next, Trim, Grow;
      if ptr == 0 {
        if size0 != 0 {
          r := MallocEx(size0);
          AnyBlockElse(old(h), old(mem), mem, ptr - BHDR_OVERHEAD);
          NoAddress(old(h), size0);
          return;
        } else {
          NothingMoved(h, mem, ptr - BHDR_OVERHEAD);
          return 0;
        }
      } else if size0 == 0 {
        FreeEx(ptr);
        return 0;
      }
      var n := RoundRequest(size0);
      Rounded(h, ptr - BHDR_OVERHEAD, size0);
      r := ResizeBlock(ptr - BHDR_OVERHEAD, n);
    }

    // ---------- init_memory_pool ----------

    /** The object for a pool with any contents. */
    constructor (pool: Memory, signature: nat)
      ensures mem == pool && tlsf_signature == signature
      ensures fresh(sl_bitmap) && fresh(matrix)
      ensures sl_bitmap.Length == REAL_FLI && matrix.Length0 == REAL_FLI && matrix.Length1 == MAX_SLI
    {
      tlsf_signature, area_head, fl_bitmap, mem := signature, 0, 0, pool;
      sl_bitmap, matrix := new nat[REAL_FLI], new int[REAL_FLI, MAX_SLI];
    }

    /** memset of tlsf_t. */
    method ClearControl()
      requires sl_bitmap.Length == REAL_FLI && matrix.Length0 == REAL_FLI && matrix.Length1 == MAX_SLI
      modifies this`fl_bitmap, sl_bitmap, matrix
      ensures Heads(NoLists()) && Bits(NoLists())
    {
      fl_bitmap := 0;
      forall i | 0 <= i < REAL_FLI { sl_bitmap[i] := 0; }
      forall i, j | 0 <= i < REAL_FLI && 0 <= j < MAX_SLI { matrix[i, j] := 0; }
      NoBits(fl_bitmap);
      NoBits(0);
    }

    static lemma EightDivides(n: int)
      requires 0 <= n < 0x4000_0000 && n % 8 == 0
      ensures IsSize(n)
    {
    }

    /** The sizes process_area computes. */
    lemma AreaSizes(area: int, size: nat)
      requires IsArea(area, area + size - BHDR_OVERHEAD) && size <= 0x4000_0000
      ensures size >= 5 * BHDR_OVERHEAD && IsSize(MIN_BLOCK_SIZE) && IsSize(size - 4 * BHDR_OVERHEAD)
      ensures RoundDownSize(size - 3 * BHDR_OVERHEAD - MIN_BLOCK_SIZE) == size - 4 * BHDR_OVERHEAD
      ensures SizeBits(Word(MIN_BLOCK_SIZE, false, false)) == MIN_BLOCK_SIZE
      ensures SizeBits(Word(size - 4 * BHDR_OVERHEAD, false, false)) == size - 4 * BHDR_OVERHEAD
    {
      var n := size - 4 * BHDR_OVERHEAD;
      EightDivides(n);
      assert IsSize(MIN_BLOCK_SIZE);
      hide IsArea, IsSize, SizeBits, RoundDownSize;
      RoundDownSizeIs(n);
      ReadSize(MIN_BLOCK_SIZE, false, false);
      ReadSize(n, false, false);
    }

    /** process_area, first half: the block of the area information and the used block after it. */
    method PutBlocks(ib: int, size: nat) returns (b: int)
      requires h.first == ib && h.end == ib + size - BHDR_OVERHEAD && IsArea(h.first, h.end)
      requires size <= 0x4000_0000
      modifies this`mem
      ensures b == ib + 2 * BHDR_OVERHEAD && mem == BlocksPut(old(mem), ib, size - 4 * BHDR_OVERHEAD)
      ensures size >= 5 * BHDR_OVERHEAD && SizeBits(Rd(mem, b + 4)) == size - 4 * BHDR_OVERHEAD
    {
      AreaSizes(ib, size);
      hide IsSize, IsArea, RoundDownSize, SizeBits;
      Store(ib + 4, MIN_BLOCK_SIZE);
      assert Load(ib + 4) == Word(MIN_BLOCK_SIZE, false, false);
      b := ib + BHDR_OVERHEAD + SizeBits(Load(ib + 4));
      var bSize := RoundDownSize(size - 3 * BHDR_OVERHEAD - SizeBits(Load(ib + 4)));
      Store(b + 4, bSize);
      Store(b + 8, 0);
      Store(b + 12, 0);
      assert Rd(mem, b + 4) == Word(bSize, false, false);
    }

    /** process_area: one used block between the area information and the sentinel. */
    method ProcessArea(area: int, size: nat) returns (ib: int)
      requires h.first == area && h.end == area + size - BHDR_OVERHEAD && IsArea(h.first, h.end)
      requires size <= 0x4000_0000 && area > 0
      modifies this`mem
      ensures ib == area && AreaHeaders(mem, h)
    {
      hide IsArea, SizeBits, AreaHeaders, BlocksPut;
      ib := area;
      var b := PutBlocks(ib, size);
      AreaIs(old(mem), h, size - 4 * BHDR_OVERHEAD);
      var lb := b + BHDR_OVERHEAD + SizeBits(Load(b + 4));
      Store(lb, b);
      Store(lb + 4, PREV_FREE);
      Store(ib + BHDR_OVERHEAD + 4, 0);
      Store(ib + BHDR_OVERHEAD, lb);
    }

    method PlaceArea(area: int, size: nat, ghost end: int) returns (b: int)
      requires Heads(NoLists()) && Bits(NoLists())
      requires area > 0 && size <= 0x4000_0000 && end == area + size - BHDR_OVERHEAD && IsArea(area, end)
      modifies this`mem, this`h
      ensures h == Raw(area, end) && b == area + 2 * BHDR_OVERHEAD && Freeable(b, true)
    {
      hide Heads, Bits, And;
      h := Raw(area, end);
      var ib := ProcessArea(area, size);
      RawWellFormed(area, end);
      RawHeaders(mem, area, end);
      b := ib + 2 * BHDR_OVERHEAD;
    }

    method ReadBack(b: int) returns (size: nat)
      requires Valid() && b in h.bs
      ensures size == h.bs[b].size
    {
      assert HeaderAt(mem, h.bs, b);
      SizesFit(h.bs, h.first, h.end, b);
      ReadSize(h.bs[b].size, h.bs[b].free, AfterFree(h.bs, b));
      size := SizeBits(Load(b + 4));
    }

    /** process_area and free_ex of its block, on the cleared control structure. */
    method BuildArea(area: int, size: nat, ghost end: int) returns (bSize: nat)
      requires tlsf_signature == TLSF_SIGNATURE && Heads(NoLists()) && Bits(NoLists())
      requires area > 0 && size <= 0x4000_0000 && end == area + size - BHDR_OVERHEAD && IsArea(area, end)
      modifies this`mem, this`fl_bitmap, this`h, sl_bitmap, matrix
      ensures Valid() && h == Initial(area, end) && bSize == end - area - 3 * BHDR_OVERHEAD
    {
      var b := PlaceArea(area, size, end);
      FreeLive(b, true);
      InitialShape(area, end);
      bSize := ReadBack(b);
    }

    /** init_memory_pool past its checks, on a pool without the signature. */
    method InitFresh(memPoolSize: nat, memPool: nat) returns (r: int)
      requires sl_bitmap.Length == REAL_FLI && matrix.Length0 == REAL_FLI && matrix.Length1 == MAX_SLI
      requires 0 < memPool && SIZEOF_TLSF + 8 * BHDR_OVERHEAD <= memPoolSize < 0x4000_0000
      modifies this, sl_bitmap, matrix
      ensures Valid() && IsArea(memPool + TLSF_ROOM, PoolEnd(memPool, memPoolSize))
      ensures h == Initial(memPool + TLSF_ROOM, PoolEnd(memPool, memPoolSize))
      ensures r == h.end - h.first - 3 * BHDR_OVERHEAD
    {
      hide RoundDownSize, IsArea, PoolEnd, Heads, Bits;
      ClearControl();
      tlsf_signature := TLSF_SIGNATURE;
      PoolIsArea(memPool, memPoolSize);
      r := BuildArea(memPool + TLSF_ROOM, RoundDownSize(memPoolSize - SIZEOF_TLSF), PoolEnd(memPool, memPoolSize));
      area_head := memPool + TLSF_ROOM + BHDR_OVERHEAD;
    }

    /** init_memory_pool.  A pool that carries the signature has been set up before; what is read back then is
        the size of the block with the area information, not that of the free block a first call returns. */
    method InitMemoryPool(memPoolSize: nat, memPool: nat) returns (r: int)
      requires sl_bitmap.Length == REAL_FLI && matrix.Length0 == REAL_FLI && matrix.Length1 == MAX_SLI
      requires memPool + memPoolSize + BHDR_OVERHEAD <= WORD_MAX && memPoolSize < 0x4000_0000
      requires tlsf_signature == TLSF_SIGNATURE ==> Valid() && h.first == memPool + TLSF_ROOM
      modifies this, sl_bitmap, matrix
      ensures r == -1 <==> memPool == 0 || memPoolSize < SIZEOF_TLSF + 8 * BHDR_OVERHEAD || memPool % 4 != 0
      ensures r == -1 || old(tlsf_signature) == TLSF_SIGNATURE ==>
        h == old(h) && mem == old(mem) && tlsf_signature == old(tlsf_signature)
      ensures r != -1 && old(tlsf_signature) == TLSF_SIGNATURE ==> Valid() && r == MIN_BLOCK_SIZE
      ensures r != -1 && old(tlsf_signature) != TLSF_SIGNATURE ==>
        Valid() && IsArea(memPool + TLSF_ROOM, PoolEnd(memPool, memPoolSize))
      ensures r != -1 && old(tlsf_signature) != TLSF_SIGNATURE ==>
        h == Initial(memPool + TLSF_ROOM, PoolEnd(memPool, memPoolSize)) && r == h.end - h.first - 3 * BHDR_OVERHEAD
    {
      if memPool == 0 || memPoolSize == 0 || memPoolSize < SIZEOF_TLSF + BHDR_OVERHEAD * 8 {
        return -1;
      }
      if memPool % 4 != 0 {
        return -1;
      }
      if tlsf_signature == TLSF_SIGNATURE {
        r := ReadBack(memPool + TLSF_ROOM);
        return;
      }
      r := InitFresh(memPoolSize, memPool);
    }

    // ---------- the client ----------

    /** A client writes a word of a block it holds: the allocator does not notice. */
    method ClientStore(b: int, i: nat, v: nat)
      requires Valid() && Live(h, b) && i + 4 <= h.bs[b].size && i % 4 == 0
      modifies this`mem
      ensures Valid() && h == old(h) && Payload(mem, b, i) == v && SameLivePayload(h, old(mem), mem, b)
      ensures forall j :: j != i ==> Payload(mem, b, j) == Payload(old(mem), b, j)
    {
      hide Threaded, Payload, And, Or;
      TiledIsLaid(h.bs, h.first, h.end);
      PayloadStore(h.bs, mem, h.ls, b, i, v);
      OneWord(mem, b, i, v);
      assert Next(h.bs, b) <= h.end;
      Store(b + BHDR_OVERHEAD + i, v);
      KeepHeaders(h.bs, old(mem), mem, {});
    }

    /** The control structure is a function of the lists, so a heap that comes back brings back the
        matrix and both bitmaps. */
    twostate lemma SameControl(ls: Lists)
      requires AllClasses(ls) && old(Heads(ls)) && old(Bits(ls)) && Heads(ls) && Bits(ls)
      ensures fl_bitmap == old(fl_bitmap) && sl_bitmap[..] == old(sl_bitmap[..])
      ensures forall i, j :: 0 <= i < REAL_FLI && 0 <= j < MAX_SLI ==> matrix[i, j] == old(matrix[i, j])
    {
      Pow2Bytes();
      forall i | 0 <= i < REAL_FLI
        ensures sl_bitmap[i] == old(sl_bitmap[i])
      {
        forall j: nat | j < 32
          ensures Bit(sl_bitmap[i], j) <==> Bit(old(sl_bitmap[i]), j)
        {
          assert Class(i, j) in ls && (ls[Class(i, j)] == [] || ls[Class(i, j)] != []);
        }
        SameBits(sl_bitmap[i], old(sl_bitmap[i]), 32);
      }
      SameBits(fl_bitmap, old(fl_bitmap), 32);
      forall i, j | 0 <= i < REAL_FLI && 0 <= j < MAX_SLI
        ensures matrix[i, j] == old(matrix[i, j])
      {
        assert Class(i, j) in ls && matrix[i, j] == Head(ls[Class(i, j)]);
      }
    }
  }
}
