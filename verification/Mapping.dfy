/** The size classes of the allocator: lib/tlsf/tlsf.c, lines 256-341. */
module Mapping {
  import opened Words

  const MAX_LOG2_SLI := 5
  const MAX_SLI := 32
  const FLI_OFFSET := 6
  const SMALL_BLOCK := 128
  const REAL_FLI := 24

  /** First-level and second-level index of a free list. */
  datatype Class = Class(fl: int, sl: int)

  predicate InMatrix(c: Class) {
    0 <= c.fl < REAL_FLI && 0 <= c.sl < MAX_SLI
  }

  /** Classes in the order in which the search visits them. */
  predicate Before(c: Class, d: Class) {
    c.fl < d.fl || (c.fl == d.fl && c.sl < d.sl)
  }

  // ---------- ls_bit and ms_bit ----------

  /** The 256-entry table, run by run: the index of the top set bit, -1 for 0. */
  function Table(v: nat): int
    requires v < 256
  {
    if v == 0 then -1 else if v == 1 then 0
    else if v <= 3 then 1 else if v <= 7 then 2 else if v <= 15 then 3
    else if v <= 31 then 4 else if v <= 63 then 5 else if v <= 127 then 6 else 7
  }

  function ByteShift(x: nat): nat {
    if x <= 0xffff then (if x <= 0xff then 0 else 8) else (if x <= 0xffffff then 16 else 24)
  }

  lemma TableIsTopBit(v: nat)
    requires 0 < v < 256
    ensures 0 <= Table(v) <= 7 && Pow2(Table(v)) <= v < 2 * Pow2(Table(v))
  {
    assert Pow2(1) == 2 && Pow2(2) == 4 && Pow2(3) == 8;
    assert Pow2(4) == 16 && Pow2(5) == 32;
    assert Pow2(6) == 64 && Pow2(7) == 128;
  }

  lemma ByteOf(x: nat)
    requires x <= WORD_MAX
    ensures Shr(x, ByteShift(x)) < 256 && (x > 0 <==> Shr(x, ByteShift(x)) > 0)
  {
    Pow2Bytes();
    ShrBounds(x, ByteShift(x));
  }

  /** The top bit of the byte, moved back, is the top bit of the word. */
  lemma ByteTop(x: nat, a: nat, k: nat)
    requires Pow2(k) <= Shr(x, a) < 2 * Pow2(k)
    ensures Pow2(k + a) <= x < 2 * Pow2(k + a)
  {
    ShrBounds(x, a);
    Pow2Add(k, a);
    var w, p, s := Pow2(k), Pow2(a), Shr(x, a);
    hide Pow2, Shr;
    MulOrder(w, s, p);
    MulOrder(s + 1, 2 * w, p);
    MulOrder(s, 0, p);
    Doubled(w, p);
  }

  lemma Doubled(w: nat, p: nat)
    ensures 2 * w * p == 2 * (w * p)
  {
  }

  /** The body ms_bit and ls_bit share: the byte holding the top bit picks the table entry. */
  function TopBit(x: nat): int
    requires x <= WORD_MAX
  {
    ByteOf(x);
    Table(Shr(x, ByteShift(x))) + ByteShift(x)
  }

  function MsBit(i: nat): int
    requires i <= WORD_MAX
  {
    TopBit(i)
  }

  function LsBit(i: nat): int
    requires i <= WORD_MAX
  {
    TopBit(And(i, Neg(i)))
  }

  lemma MsBitIsTop(i: nat)
    requires i <= WORD_MAX
    ensures i == 0 ==> MsBit(i) == -1
    ensures i > 0 ==> 0 <= MsBit(i) < 32 && Pow2(MsBit(i)) <= i < 2 * Pow2(MsBit(i))
  {
    ByteOf(i);
    if i > 0 {
      var v := Shr(i, ByteShift(i));
      TableIsTopBit(v);
      ByteTop(i, ByteShift(i), Table(v));
    }
  }

  lemma LsBitIsLowest(i: nat)
    requires i <= WORD_MAX
    ensures i == 0 ==> LsBit(i) == -1
    ensures i > 0 ==> 0 <= LsBit(i) < 32 && Bit(i, LsBit(i))
    ensures forall j: nat :: j < LsBit(i) ==> !Bit(i, j)
  {
    Pow2Bytes();
    var x := And(i, Neg(i));
    assert LsBit(i) == MsBit(x);
    MsBitIsTop(x);
    hide MsBit, LsBit, And;
    if i > 0 {
      assert Neg(i) == Pow2(32) - i;
      var r := AndNegative(i, 32);
      TopBitUnique(Pow2(r), r, MsBit(x));
    }
  }

  lemma TopBitUnique(x: nat, r: nat, s: nat)
    requires Pow2(r) <= x < 2 * Pow2(r) && Pow2(s) <= x < 2 * Pow2(s)
    ensures r == s
  {
    Pow2Apart(r, s);
    Pow2Apart(s, r);
  }

  lemma {:induction false} Pow2Apart(r: nat, s: nat)
    ensures r < s ==> 2 * Pow2(r) <= Pow2(s)
  {
    if r + 1 < s { Pow2Apart(r, s - 1); }
  }

  // ---------- MAPPING_INSERT and MAPPING_SEARCH ----------

  lemma Pow2Five(k: nat)
    ensures Pow2(k + 5) == 32 * Pow2(k)
  {
    assert Pow2(k + 2) == 4 * Pow2(k);
    assert Pow2(k + 4) == 4 * Pow2(k + 2);
  }

  lemma TopOfLarge(r: nat)
    requires MAX_SLI <= r <= WORD_MAX
    ensures 5 <= MsBit(r) < 32 && 32 * Pow2(MsBit(r) - 5) <= r < 64 * Pow2(MsBit(r) - 5)
    ensures (r >= SMALL_BLOCK ==> MsBit(r) >= 7) && (r >= 64 <==> MsBit(r) >= 6)
  {
    MsBitIsTop(r);
    var m := MsBit(r);
    assert Pow2(5) == 32 && Pow2(6) == 64 && Pow2(7) == 128;
    hide MsBit;
    Pow2Apart(m, 7);
    Pow2Apart(m, 6);
    Pow2Apart(m, 5);
    Pow2Apart(5, m);
    Pow2Five(m - 5);
  }

  /** The lines the two mappings share. */
  function LargeClass(r: nat): Class
    requires MAX_SLI <= r <= WORD_MAX
  {
    TopOfLarge(r);
    var fl := MsBit(r);
    Class(fl - FLI_OFFSET, Shr(r, fl - MAX_LOG2_SLI) - MAX_SLI)
  }

  function MappingInsert(r: nat): Class
    requires r <= WORD_MAX
  {
    if r < SMALL_BLOCK then Class(0, r / (SMALL_BLOCK / MAX_SLI)) else LargeClass(r)
  }

  /** Least size and width of a class. */
  function Base(c: Class): int
    requires c.fl >= 0
  {
    if c.fl == 0 then 4 * c.sl else (32 + c.sl) * Pow2(c.fl + 1)
  }

  function Width(c: Class): int
    requires c.fl >= 0
  {
    if c.fl == 0 then 4 else Pow2(c.fl + 1)
  }

  /** The class of r is the one whose interval of sizes holds r. */
  lemma InsertInClass(r: nat)
    requires r <= WORD_MAX
    ensures var c := MappingInsert(r);
      0 <= c.fl && 0 <= c.sl < MAX_SLI && Base(c) <= r < Base(c) + Width(c)
  {
    if r >= SMALL_BLOCK {
      TopOfLarge(r);
      ShrBetween(r, MsBit(r) - 5, 32, 64);
      ShrBounds(r, MsBit(r) - 5);
    }
  }

  /** Sizes below 2^30 fall in the 24 x 32 matrix, and no others do. */
  lemma InsertIsValid(r: nat)
    requires r <= WORD_MAX
    ensures InMatrix(MappingInsert(r)) <==> r < 0x4000_0000
  {
    InsertInClass(r);
    Pow2Thirty();
    if r >= SMALL_BLOCK {
      MsBitIsTop(r);
      Pow2Apart(29, MsBit(r));
      Pow2Apart(MsBit(r), 30);
    }
  }

  /** Earlier classes hold smaller sizes. */
  lemma ClassesInOrder(c: Class, d: Class)
    requires 0 <= c.fl && 0 <= c.sl < MAX_SLI && 0 <= d.fl && 0 <= d.sl < MAX_SLI
    requires Before(c, d)
    ensures Base(c) + Width(c) <= Base(d)
  {
    var p, q := Pow2(c.fl + 1), Pow2(d.fl + 1);
    assert Pow2(1) == 2;
    if c.fl == d.fl {
      MulOrder(32 + c.sl, 32 + d.sl, p);
      MulOrder(32 + c.sl + 1, 32 + d.sl, p);
    } else {
      Pow2Apart(c.fl + 1, d.fl + 1);
      hide Pow2;
      MulOrder(32 + c.sl, 0, p);
      MulOrder(32 + c.sl + 1, 64, p);
      MulOrder(32, 32 + d.sl, q);
    }
  }

  /** The class MAPPING_INSERT gives is monotone in the size. */
  lemma InsertMonotone(r: nat, s: nat)
    requires r <= s <= WORD_MAX
    ensures !Before(MappingInsert(s), MappingInsert(r))
  {
    InsertInClass(r);
    InsertInClass(s);
    if Before(MappingInsert(s), MappingInsert(r)) {
      ClassesInOrder(MappingInsert(s), MappingInsert(r));
    }
  }

  /** The class of a size is the only one whose interval holds it. */
  lemma ClassUnique(r: nat, c: Class)
    requires r <= WORD_MAX && 0 <= c.fl && 0 <= c.sl < MAX_SLI
    requires Base(c) <= r < Base(c) + Width(c)
    ensures MappingInsert(r) == c
  {
    InsertInClass(r);
    var d := MappingInsert(r);
    if Before(c, d) { ClassesInOrder(c, d); }
    if Before(d, c) { ClassesInOrder(d, c); }
  }

  lemma MarginIs(r: nat)
    requires SMALL_BLOCK <= r <= WORD_MAX
    ensures 7 <= MsBit(r) < 32 && Shl(1, MsBit(r) - 5) == Pow2(MsBit(r) - 5) <= r
  {
    TopOfLarge(r);
    var m := MsBit(r);
    hide MsBit, Pow2;
    ShlOne(m - 5);
    MulOrder(1, 32, Pow2(m - 5));
  }

  /** _t of MAPPING_SEARCH: one less than the width of the classes around r. */
  function SearchMargin(r: nat): (t: nat)
    requires SMALL_BLOCK <= r <= WORD_MAX
    ensures t == Pow2(MsBit(r) - 5) - 1 && t < r
  {
    MarginIs(r);
    Shl(1, MsBit(r) - MAX_LOG2_SLI) - 1
  }

  /** MAPPING_SEARCH rounds the size up and returns the rounded size with its class, or what it takes for
      them when the sum of size and margin leaves 32 bits. A sum below 32 would be shifted by a negative
      number of bits, which C leaves undefined; its first-level index is negative whatever comes out. */
  function MappingSearch(r: nat): (nat, Class)
    requires r <= WORD_MAX
  {
    if r < SMALL_BLOCK then
      (r, Class(0, r / (SMALL_BLOCK / MAX_SLI)))
    else
      var t := SearchMargin(r);
      var x := Add(r, t);
      (And(x, Not(t)), if x < MAX_SLI then Class(MsBit(x) - FLI_OFFSET, 0) else LargeClass(x))
  }

  /** The largest size whose sum with its margin is a word. */
  const LAST_SUM := 0xFC00_0000

  lemma {:induction false} MarginSum(r: nat)
    requires SMALL_BLOCK <= r <= WORD_MAX
    ensures r <= LAST_SUM <==> r + SearchMargin(r) <= WORD_MAX
    ensures r >= 0x8000_0000 ==> SearchMargin(r) == 0x3FF_FFFF
    ensures SearchMargin(r) <= 0x3FF_FFFF
  {
    hide SearchMargin;
    TopOfLarge(r);
    Pow2Thirty();
    Pow2Bytes();
    var m := MsBit(r);
    assert Pow2(31) == 2 * Pow2(30) && Pow2(26) == 4 * Pow2(24);
    MsBitIsTop(r);
    hide Pow2, MsBit;
    Pow2Apart(m, 31);
    Pow2Apart(m - 5, 26);
  }

  /** The code comes to the least size of the class of that size, not below r. */
  predicate RoundsUp(r: nat)
    requires r <= WORD_MAX
  {
    var (up, c) := MappingSearch(r);
    r <= up <= WORD_MAX && c.fl >= 0 && up == Base(c) && c == MappingInsert(up)
  }

  /** MAPPING_SEARCH returns the least size of its class, at least r and for large r less than r + r/32,
      exactly for sizes up to 2^32 - 2^26; small sizes that are no multiple of 4 are not rounded. Beyond
      2^32 - 2^26 the rounded size is 0. */
  lemma SearchRounds(r: nat)
    requires r <= WORD_MAX
    ensures RoundsUp(r) <==> r <= LAST_SUM && (r >= SMALL_BLOCK || r % 4 == 0)
    ensures r < SMALL_BLOCK ==> MappingSearch(r).0 == r
    ensures SMALL_BLOCK <= r <= LAST_SUM ==> 32 * (MappingSearch(r).0 - r) < r
    ensures r > LAST_SUM ==> MappingSearch(r).0 == 0
  {
    if r > LAST_SUM {
      SearchWraps(r);
    } else {
      var (up, c) := MappingSearch(r);
      if r >= SMALL_BLOCK {
        SearchLarge(r);
        ClassUnique(up, c);
      } else if r % 4 == 0 {
        ClassUnique(up, c);
      }
    }
  }

  lemma SearchLarge(r: nat)
    requires SMALL_BLOCK <= r <= LAST_SUM
    ensures var (up, c) := MappingSearch(r);
      r <= up <= WORD_MAX && 32 * (up - r) < r
      && 0 < c.fl && 0 <= c.sl < MAX_SLI && up == Base(c)
  {
    var q, k := SearchMultiple(r);
    MarginSum(r);
    AddIs(r, SearchMargin(r));
    hide Add;
    SearchBase(r + SearchMargin(r), q, k);
  }

  /** When the sum wraps, what is left of it is smaller than the margin, so that the mask leaves nothing;
      its class is in the matrix from 64 up. */
  lemma SearchWraps(r: nat)
    requires LAST_SUM < r <= WORD_MAX
    ensures MappingSearch(r).0 == 0
    ensures InMatrix(MappingSearch(r).1) <==> r >= LAST_SUM + 65
  {
    var t := SearchMargin(r);
    MarginSum(r);
    AddIs(r, t);
    var x := Add(r, t);
    assert x == r - LAST_SUM - 1;
    hide Add, SearchMargin;
    BelowMask(x);
    WrappedClass(x);
  }

  lemma BelowMask(x: nat)
    requires x < 0x3FF_FFFF
    ensures And(x, Not(0x3FF_FFFF)) == 0
  {
    Pow2Bytes();
    assert Pow2(26) == 4 * Pow2(24);
    hide And;
    SearchMask(x, 0, 26);
  }

  lemma WrappedClass(x: nat)
    requires x < 0x3FF_FFFF
    ensures x < MAX_SLI ==> MsBit(x) < FLI_OFFSET
    ensures x >= MAX_SLI ==> (InMatrix(LargeClass(x)) <==> x >= 64)
  {
    MsBitIsTop(x);
    assert Pow2(6) == 64 && Pow2(26) == 4 * Pow2(24);
    Pow2Bytes();
    hide Pow2, MsBit;
    if x > 0 {
      Pow2Apart(26, MsBit(x));
      if MsBit(x) >= 6 { Pow2Apart(6, MsBit(x)); }
    }
    if x >= MAX_SLI {
      TopOfLarge(x);
      ShrBetween(x, MsBit(x) - 5, 32, 64);
    }
  }

  /** The rounded size is the next multiple of the class width around r. */
  lemma SearchMultiple(r: nat) returns (q: nat, k: nat)
    requires SMALL_BLOCK <= r <= LAST_SUM
    ensures 2 <= k && k == MsBit(r) - 5 && Pow2(k) == SearchMargin(r) + 1 && 32 * Pow2(k) <= r < 64 * Pow2(k)
    ensures q == Shr(r + SearchMargin(r), k) && 32 <= q <= 64
    ensures r <= q * Pow2(k) <= r + SearchMargin(r)
    ensures MappingSearch(r).0 == q * Pow2(k)
  {
    TopOfLarge(r);
    MarginSum(r);
    AddIs(r, SearchMargin(r));
    hide Add;
    k := MsBit(r) - 5;
    var x := r + SearchMargin(r);
    q := Shr(x, k);
    ShrBounds(x, k);
    ShrBetween(x, k, 32, 65);
    SearchMask(x, q, k);
  }

  lemma SearchMask(x: nat, q: nat, k: nat)
    requires x <= WORD_MAX && k < 32 && q * Pow2(k) <= x < q * Pow2(k) + Pow2(k)
    ensures Pow2(k) - 1 <= WORD_MAX && And(x, Not(Pow2(k) - 1)) == q * Pow2(k)
  {
    Pow2Bytes();
    Pow2Apart(k, 32);
    AndHigh(q, x - q * Pow2(k), k, 32);
  }

  /** Adding 2^k - 1 either keeps the top bit or carries into the next one. */
  lemma SearchTop(x: nat, q: nat, k: nat)
    requires x <= WORD_MAX && 32 * Pow2(k) <= x < 65 * Pow2(k) && q == Shr(x, k) && 32 <= q <= 64
    ensures q < 64 ==> MsBit(x) == k + 5
    ensures q == 64 ==> MsBit(x) == k + 6 && Shr(x, k + 1) == 32
  {
    hide MsBit, Shr;
    MsBitIsTop(x);
    ShrBounds(x, k);
    Pow2Five(k);
    if q < 64 {
      MulOrder(q + 1, 64, Pow2(k));
      MulOrder(q, 64, Pow2(k));
      TopBitUnique(x, k + 5, MsBit(x));
    } else {
      TopBitUnique(x, k + 6, MsBit(x));
      ShrBetween(x, k + 1, 32, 33);
    }
  }

  lemma SearchBase(x: nat, q: nat, k: nat)
    requires x <= WORD_MAX && 32 * Pow2(k) <= x < 65 * Pow2(k) && 2 <= k
    requires q == Shr(x, k) && 32 <= q <= 64
    ensures SMALL_BLOCK <= x
    ensures var c := LargeClass(x);
      0 < c.fl && 0 <= c.sl < MAX_SLI && Base(c) == q * Pow2(k)
  {
    AtLeastFour(k);
    SearchTop(x, q, k);
    BaseOf(k, q);
    hide Pow2, Shr, MsBit, Base;
    if q == 64 {
      assert LargeClass(x) == Class(k, 0);
    } else {
      assert LargeClass(x) == Class(k - 1, q - 32);
    }
  }

  lemma BaseOf(k: nat, q: nat)
    requires 2 <= k && 32 <= q
    ensures Base(Class(k - 1, q - 32)) == q * Pow2(k) && Base(Class(k, 0)) == 64 * Pow2(k)
  {
    assert Pow2(k + 1) == 2 * Pow2(k);
    hide Pow2;
    assert 32 + (q - 32) == q && k - 1 + 1 == k;
  }

  lemma AtLeastFour(k: nat)
    requires k >= 2
    ensures Pow2(k) >= 4
  {
    assert Pow2(2) == 4;
    Pow2Apart(2, k);
  }

  /** A multiple of 8 rounds to a multiple of 8. */
  lemma SearchAligned(r: nat)
    requires r <= WORD_MAX && r % 8 == 0
    ensures MappingSearch(r).0 % 8 == 0
  {
    if r > LAST_SUM {
      SearchWraps(r);
    } else if r >= SMALL_BLOCK {
      var q, k := SearchMultiple(r);
      MultipleOfEight(r, q, k);
    }
  }

  lemma MultipleOfEight(r: nat, q: nat, k: nat)
    requires 2 <= k && r % 8 == 0 && r <= q * Pow2(k) <= r + Pow2(k) - 1
    ensures q * Pow2(k) % 8 == 0
  {
    if k == 2 {
      assert Pow2(2) == 4;
      OnlyMultiple(r, q);
    } else {
      var p := Pow2(k - 3);
      assert Pow2(k) == 2 * Pow2(k - 1) == 4 * Pow2(k - 2) == 8 * p;
      hide Pow2;
      EightTimes(q, p);
    }
  }

  lemma OnlyMultiple(r: nat, q: nat)
    requires r % 8 == 0 && r <= 4 * q <= r + 3
    ensures 4 * q % 8 == 0
  {
  }

  lemma EightTimes(q: nat, p: nat)
    ensures q * (8 * p) % 8 == 0
  {
    assert q * (8 * p) == 8 * (q * p);
  }

  /** The search class is in the matrix for sizes up to 2^30 - 2^24, and again for the last ones, whose
      sum with the margin wraps to 64 or more. */
  lemma SearchIsValid(r: nat)
    requires r <= WORD_MAX
    ensures InMatrix(MappingSearch(r).1) <==> r <= 0x3F00_0000 || r >= LAST_SUM + 65
  {
    if r > LAST_SUM {
      SearchWraps(r);
    } else if r >= SMALL_BLOCK {
      SearchLarge(r);
      ClassUnique(MappingSearch(r).0, MappingSearch(r).1);
      InsertIsValid(MappingSearch(r).0);
      if 0x2000_0000 <= r < 0x4000_0000 { LastRounded(r); }
    }
  }

  lemma LastRounded(r: nat)
    requires 0x2000_0000 <= r < 0x4000_0000
    ensures MappingSearch(r).0 < 0x4000_0000 <==> r <= 0x3F00_0000
  {
    hide Pow2, MappingSearch, SearchMargin, MsBit, Shr;
    Pow2Thirty();
    MsBitIsTop(r);
    TopBitUnique(r, 29, MsBit(r));
    Pow2Bytes();
    var q, k := SearchMultiple(r);
    LastClasses(r, q);
  }

  /** A class of the matrix with a rounded size that holds the request: exactly up to 2^30 - 2^24. */
  lemma SearchServes(r: nat)
    requires r <= WORD_MAX
    ensures InMatrix(MappingSearch(r).1) && MappingSearch(r).0 >= r <==> r <= 0x3F00_0000
  {
    SearchIsValid(r);
    SearchRounds(r);
  }

  lemma TopOfSum(x: nat)
    requires x == 0x1FF_FFFF
    ensures MsBit(x) == 24 && Shr(x, 19) == 63
  {
    hide MsBit, Shr, Pow2;
    Pow2Bytes();
    Pow2Add(16, 3);
    Pow2Eight();
    MsBitIsTop(x);
    TopBitUnique(x, 24, MsBit(x));
    ShrBetween(x, 19, 63, 64);
  }

  lemma Pow2Eight()
    ensures Pow2(3) == 8
  {
  }

  /** Near the top of the address space the search names class (18, 31) and rounds to 0. */
  lemma SearchGoesWrong(r: nat)
    requires r == 0xFE00_0000
    ensures MappingSearch(r) == (0, Class(18, 31))
  {
    hide MsBit, Shr, SearchMargin, Add, And;
    SearchWraps(r);
    MarginSum(r);
    AddIs(r, SearchMargin(r));
    TopOfSum(r + SearchMargin(r) - WORD_MAX - 1);
  }

  lemma LastClasses(r: nat, q: nat)
    requires r <= q * 0x100_0000 <= r + 0xFF_FFFF
    ensures q * 0x100_0000 < 0x4000_0000 <==> r <= 0x3F00_0000
  {
  }

  /** A size is in the class c or a later one exactly if it is at least the base of c. */
  lemma InsertAtLeast(c: Class, r: nat)
    requires r <= WORD_MAX && 0 <= c.fl && 0 <= c.sl < MAX_SLI
    ensures !Before(MappingInsert(r), c) <==> r >= Base(c)
  {
    InsertInClass(r);
    var d := MappingInsert(r);
    if Before(d, c) { ClassesInOrder(d, c); } else if Before(c, d) { ClassesInOrder(c, d); }
  }

  /** The good-fit search: with the size and class MAPPING_SEARCH returns, looking at the search
      class and later is looking for sizes that hold the rounded request, no more and no less. */
  lemma SearchIsExact(n: nat, r: nat)
    requires n <= LAST_SUM && n % 4 == 0 && r <= WORD_MAX
    ensures n <= MappingSearch(n).0
    ensures !Before(MappingInsert(r), MappingSearch(n).1) <==> r >= MappingSearch(n).0
  {
    SearchRounds(n);
    var (up, c) := MappingSearch(n);
    InsertInClass(up);
    InsertAtLeast(c, r);
  }

  lemma EightsAreFours(n: nat)
    requires n % 8 == 0
    ensures n % 4 == 0
  {
    assert n == 4 * (2 * (n / 8));
  }

  /** SearchIsExact for rounded requests. */
  lemma SearchOfRounded(n: nat, r: nat)
    requires n <= LAST_SUM && n % 8 == 0 && r <= WORD_MAX
    ensures n <= MappingSearch(n).0
    ensures !Before(MappingInsert(r), MappingSearch(n).1) <==> r >= MappingSearch(n).0
  {
    hide MappingSearch, MappingInsert;
    EightsAreFours(n);
    SearchIsExact(n, r);
  }

  /** ROUNDUP_SIZE. */
  function RoundUpSize(r: nat): nat {
    And(Add(r, 7), Not(7))
  }

  /** Rounding up ends at 0 when there is no multiple of 8 to round to. */
  lemma RoundUpSizeIs(r: nat)
    requires r <= WORD_MAX
    ensures RoundUpSize(r) == if r <= WORD_MAX - 7 then (r + 7) / 8 * 8 else 0
  {
    assert Pow2(2) == 4 && Pow2(3) == 8;
    AddIs(r, 7);
    var x := Add(r, 7);
    SearchMask(x, x / 8, 3);
  }

  /** ROUNDDOWN_SIZE. */
  function RoundDownSize(r: nat): nat {
    And(r, Not(7))
  }

  lemma RoundDownSizeIs(r: nat)
    requires r <= WORD_MAX
    ensures RoundDownSize(r) == r - r % 8
  {
    assert Pow2(2) == 4 && Pow2(3) == 8;
    var q := r / 8;
    SearchMask(r, q, 3);
  }
}
