/** Unsigned 32-bit words as natural numbers, with C's bitwise operators defined bit by bit.
    Every shift and mask of the allocator and of the copy routines is written with these. */
module Words {
  const WORD_MAX: nat := 0xFFFF_FFFF

  function Pow2(k: nat): (p: nat)
    ensures p > 0
  {
    if k == 0 then 1 else 2 * Pow2(k - 1)
  }

  /** Bit i of w. */
  predicate Bit(w: nat, i: nat) {
    if i == 0 then w % 2 == 1 else Bit(w / 2, i - 1)
  }

  function And(a: nat, b: nat): (r: nat)
    ensures r <= a && r <= b
  {
    if a == 0 || b == 0 then 0
    else (if a % 2 == 1 && b % 2 == 1 then 1 else 0) + 2 * And(a / 2, b / 2)
  }

  function Or(a: nat, b: nat): (r: nat)
    ensures r >= a && r >= b
    decreases a + b
  {
    if a == 0 then b else if b == 0 then a
    else (if a % 2 == 1 || b % 2 == 1 then 1 else 0) + 2 * Or(a / 2, b / 2)
  }

  /** ~w, -w, w << k and w >> k of an unsigned int. */
  function Not(w: nat): nat
    requires w <= WORD_MAX
  {
    WORD_MAX - w
  }

  function Neg(w: nat): nat
    requires w <= WORD_MAX
  {
    (WORD_MAX + 1 - w) % (WORD_MAX + 1)
  }

  /** a + b of unsigned ints. */
  function Add(a: int, b: int): (r: nat)
    ensures r <= WORD_MAX
  {
    (a + b) % (WORD_MAX + 1)
  }

  function Shl(w: nat, k: nat): nat {
    w * Pow2(k) % (WORD_MAX + 1)
  }

  function Shr(w: nat, k: nat): nat {
    if k == 0 then w else Shr(w / 2, k - 1)
  }

  /** A sum is right as long as it is a word, and short of it by 2^32 otherwise. */
  lemma AddIs(a: int, b: int)
    requires 0 <= a <= WORD_MAX && 0 <= b <= WORD_MAX
    ensures Add(a, b) == if a + b <= WORD_MAX then a + b else a + b - WORD_MAX - 1
  {
  }

  lemma {:induction false} BitOfZero(i: nat)
    ensures !Bit(0, i)
  {
    if i > 0 { BitOfZero(i - 1); }
  }

  lemma {:induction false} BitAnd(a: nat, b: nat, i: nat)
    ensures Bit(And(a, b), i) <==> Bit(a, i) && Bit(b, i)
    decreases i
  {
    if a == 0 || b == 0 {
      BitOfZero(i);
    } else if i > 0 {
      BitAnd(a / 2, b / 2, i - 1);
    }
  }

  lemma {:induction false} BitOr(a: nat, b: nat, i: nat)
    ensures Bit(Or(a, b), i) <==> Bit(a, i) || Bit(b, i)
    decreases i
  {
    if a == 0 || b == 0 {
      BitOfZero(i);
    } else if i > 0 {
      BitOr(a / 2, b / 2, i - 1);
    }
  }

  /** A word below 2^n has no bit at or above n. */
  lemma {:induction false} BitBeyond(w: nat, n: nat, i: nat)
    requires w < Pow2(n) && i >= n
    ensures !Bit(w, i)
    decreases n
  {
    if n == 0 { BitOfZero(i); } else { BitBeyond(w / 2, n - 1, i - 1); }
  }

  lemma {:induction false} BitPow2(k: nat, i: nat)
    ensures Bit(Pow2(k), i) <==> i == k
  {
    if k == 0 { if i > 0 { BitOfZero(i - 1); } } else if i > 0 { BitPow2(k - 1, i - 1); }
  }

  lemma {:induction false} BitComplement(n: nat, w: nat, i: nat)
    requires w < Pow2(n) && i < n
    ensures Bit(Pow2(n) - 1 - w, i) <==> !Bit(w, i)
  {
    if i > 0 { BitComplement(n - 1, w / 2, i - 1); }
  }

  lemma {:induction false} BitMask(k: nat, i: nat)
    ensures Bit(Pow2(k) - 1, i) <==> i < k
  {
    if k == 0 { BitOfZero(i); } else if i > 0 { BitMask(k - 1, i - 1); }
  }

  lemma {:induction false} Pow2Add(a: nat, b: nat)
    ensures Pow2(a + b) == Pow2(a) * Pow2(b)
  {
    if a > 0 { Pow2Add(a - 1, b); }
  }

  lemma {:induction false} Pow2Increasing(a: nat, b: nat)
    requires a < b
    ensures Pow2(a) < Pow2(b)
  {
    if a + 1 < b { Pow2Increasing(a, b - 1); }
  }

  /** Two words with the same bits below n, and none above, are equal. */
  lemma {:induction false} SameBits(a: nat, b: nat, n: nat)
    requires a < Pow2(n) && b < Pow2(n)
    requires forall i: nat :: i < n ==> (Bit(a, i) <==> Bit(b, i))
    ensures a == b
  {
    if n > 0 {
      forall i: nat | i < n - 1
        ensures Bit(a / 2, i) <==> Bit(b / 2, i)
      {
        assert Bit(a, i + 1) <==> Bit(b, i + 1);
      }
      assert Bit(a, 0) <==> Bit(b, 0);
      SameBits(a / 2, b / 2, n - 1);
    }
  }

  lemma Pow2Bytes()
    ensures Pow2(8) == 0x100 && Pow2(16) == 0x1_0000 && Pow2(24) == 0x100_0000
    ensures Pow2(32) == WORD_MAX + 1
  {
    assert Pow2(4) == 16;
    Pow2Add(4, 4);
    Pow2Add(8, 8);
    Pow2Add(8, 16);
    Pow2Add(16, 16);
  }

  lemma Pow2Thirty()
    ensures Pow2(29) == 0x2000_0000 && Pow2(30) == 0x4000_0000
  {
    Pow2Bytes();
    Pow2Add(24, 5);
    assert Pow2(5) == 32;
  }

  lemma {:induction false} OrBound(a: nat, b: nat, n: nat)
    requires a < Pow2(n) && b < Pow2(n)
    ensures Or(a, b) < Pow2(n)
  {
    if n > 0 && a > 0 && b > 0 { OrBound(a / 2, b / 2, n - 1); }
  }

  /** Below 2^k and a multiple of 2^k share no bit: their union is their sum. */
  lemma {:induction false} OrDisjoint(a: nat, q: nat, k: nat)
    requires a < Pow2(k)
    ensures Or(a, q * Pow2(k)) == a + q * Pow2(k)
    decreases k
  {
    if k > 0 {
      assert q * Pow2(k) == 2 * (q * Pow2(k - 1));
      OrDisjoint(a / 2, q, k - 1);
      if a > 0 && q * Pow2(k) > 0 {
        assert (q * Pow2(k)) / 2 == q * Pow2(k - 1);
      }
    }
  }

  lemma {:induction false} OrCommutes(a: nat, b: nat)
    ensures Or(a, b) == Or(b, a)
    decreases a + b
  {
    if a > 0 && b > 0 { OrCommutes(a / 2, b / 2); }
  }

  /** A word and its complement share no bit. */
  lemma {:induction false} AndComplement(w: nat, n: nat)
    requires w < Pow2(n)
    ensures And(w, Pow2(n) - 1 - w) == 0
  {
    if n > 0 && w > 0 && Pow2(n) - 1 - w > 0 {
      AndComplement(w / 2, n - 1);
      assert (Pow2(n) - 1 - w) / 2 == Pow2(n - 1) - 1 - w / 2;
    }
  }

  /** w & -w is the lowest set bit of w. */
  lemma {:induction false} AndNegative(w: nat, n: nat) returns (r: nat)
    requires 0 < w < Pow2(n)
    ensures r < n && Bit(w, r) && (forall j: nat :: j < r ==> !Bit(w, j))
    ensures And(w, Pow2(n) - w) == Pow2(r)
  {
    if w % 2 == 1 {
      r := 0;
      AndComplement(w / 2, n - 1);
      assert (Pow2(n) - w) / 2 == Pow2(n - 1) - 1 - w / 2;
    } else {
      var q := AndNegative(w / 2, n - 1);
      r := q + 1;
      assert (Pow2(n) - w) / 2 == Pow2(n - 1) - w / 2;
      forall j: nat | j < r
        ensures !Bit(w, j)
      {
        if j > 0 { assert !Bit(w / 2, j - 1); }
      }
    }
  }

  lemma TwiceMul(q: nat, p: nat)
    ensures q * (2 * p) == 2 * (q * p)
  {
  }

  lemma HalfOf(a: nat, s: nat)
    ensures (2 * a + s) / 2 == a + s / 2 && (2 * a + s) % 2 == s % 2 && s == 2 * (s / 2) + s % 2
  {
  }

  lemma AndEven(x: nat, m: nat)
    ensures And(x, 2 * m) == 2 * And(x / 2, m)
  {
    assert 2 * m / 2 == m && 2 * m % 2 == 0;
    if x == 0 || m == 0 {
      assert And(x, 2 * m) == 0;
    }
  }

  lemma AndNoneMore(a: nat, s: nat, m: nat)
    requires And(a + s / 2, m) == a
    ensures And(2 * a + s, 2 * m) == 2 * a
  {
    hide And;
    HalfOf(a, s);
    AndEven(2 * a + s, m);
  }

  /** x & ~(2^k - 1) clears the low k bits. */
  lemma {:induction false} AndHigh(q: nat, s: nat, k: nat, n: nat)
    requires s < Pow2(k) <= Pow2(n) && k <= n && q * Pow2(k) + s < Pow2(n)
    ensures And(q * Pow2(k) + s, Pow2(n) - Pow2(k)) == q * Pow2(k)
    decreases k
  {
    hide And;
    if k == 0 {
      assert Pow2(k) == 1;
      AndAll(q, n);
    } else {
      var p, m := Pow2(k - 1), Pow2(n - 1) - Pow2(k - 1);
      assert Pow2(k) == 2 * p && Pow2(n) == 2 * Pow2(n - 1);
      hide Pow2;
      TwiceMul(q, p);
      assert q * p + s / 2 < Pow2(n - 1);
      AndHigh(q, s / 2, k - 1, n - 1);
      AndNoneMore(q * p, s, m);
    }
  }

  /** One bit of a mask of ones. */
  lemma AndOnes(x: nat, p: nat)
    requires p > 0
    ensures And(x, 2 * p - 1) == x % 2 + 2 * And(x / 2, p - 1)
  {
    assert (2 * p - 1) / 2 == p - 1 && (2 * p - 1) % 2 == 1;
  }

  lemma AndOneMore(a: nat, s: nat, p: nat)
    requires p > 0 && And(a + s / 2, p - 1) == s / 2
    ensures And(2 * a + s, 2 * p - 1) == s
  {
    hide And;
    HalfOf(a, s);
    AndOnes(2 * a + s, p);
  }

  /** x & (2^k - 1) is the remainder by 2^k. */
  lemma {:induction false} AndLow(q: nat, s: nat, k: nat)
    requires s < Pow2(k)
    ensures And(q * Pow2(k) + s, Pow2(k) - 1) == s
    decreases k
  {
    if k > 0 {
      hide And;
      var p := Pow2(k - 1);
      TwiceMul(q, p);
      AndLow(q, s / 2, k - 1);
      AndOneMore(q * p, s, p);
    }
  }

  lemma {:induction false} AndAll(w: nat, n: nat)
    requires w < Pow2(n)
    ensures And(w, Pow2(n) - 1) == w
  {
    if n > 0 && w > 0 {
      AndAll(w / 2, n - 1);
    }
  }

  lemma WholeWords(q: nat, r: nat)
    requires r <= WORD_MAX
    ensures ((WORD_MAX + 1) * q + r) % (WORD_MAX + 1) == r
  {
  }

  lemma AllShifted(p: nat)
    requires 1 <= p <= WORD_MAX
    ensures WORD_MAX * p % (WORD_MAX + 1) == WORD_MAX + 1 - p
  {
    WholeWords(p - 1, WORD_MAX + 1 - p);
  }

  /** ~0 << k keeps the bits from k up. */
  lemma BitFrom(k: nat, i: nat)
    requires k < 32 && i < 32
    ensures Shl(WORD_MAX, k) <= WORD_MAX
    ensures Bit(Shl(WORD_MAX, k), i) <==> i >= k
  {
    hide Bit, Pow2;
    Pow2Bytes();
    Pow2Increasing(k, 32);
    BitComplement(32, Pow2(k) - 1, i);
    BitMask(k, i);
    AllShifted(Pow2(k));
  }

  /** set_bit and clear_bit on one word: *addr |= 1 << nr and *addr &= ~(1 << nr) for nr below 32. */
  function SetBit(w: nat, nr: nat): nat {
    Or(w, Shl(1, nr))
  }

  function ClearBit(w: nat, nr: nat): nat
    requires w <= WORD_MAX
  {
    And(w, Not(Shl(1, nr)))
  }

  lemma ShlOne(nr: nat)
    requires nr < 32
    ensures Shl(1, nr) == Pow2(nr) <= WORD_MAX
  {
    Pow2Bytes();
    Pow2Increasing(nr, 32);
    SmallMod(Pow2(nr));
  }

  lemma SmallMod(x: nat)
    requires x <= WORD_MAX
    ensures 1 * x % (WORD_MAX + 1) == x
  {
  }

  lemma SetBitIsSet(w: nat, nr: nat)
    requires w <= WORD_MAX && nr < 32
    ensures 0 < SetBit(w, nr) <= WORD_MAX
    ensures forall i: nat {:trigger Bit(SetBit(w, nr), i)} :: Bit(SetBit(w, nr), i) <==> i == nr || Bit(w, i)
  {
    ShlOne(nr);
    Pow2Bytes();
    OrBound(w, Shl(1, nr), 32);
    forall i: nat
      ensures Bit(SetBit(w, nr), i) <==> i == nr || Bit(w, i)
    {
      BitOr(w, Shl(1, nr), i);
      BitPow2(nr, i);
    }
  }

  lemma ClearBitIsClear(w: nat, nr: nat)
    requires w <= WORD_MAX && nr < 32
    ensures ClearBit(w, nr) <= WORD_MAX
    ensures forall i: nat {:trigger Bit(ClearBit(w, nr), i)} :: i < 32 ==>
      (Bit(ClearBit(w, nr), i) <==> i != nr && Bit(w, i))
  {
    ShlOne(nr);
    Pow2Bytes();
    forall i: nat | i < 32
      ensures Bit(ClearBit(w, nr), i) <==> i != nr && Bit(w, i)
    {
      BitAnd(w, Not(Shl(1, nr)), i);
      BitComplement(32, Shl(1, nr), i);
      BitPow2(nr, i);
    }
  }

  // ---------- set_bit and clear_bit on an array of words ----------

  /** addr[nr >> 5] |= 1 << (nr & 0x1f) and addr[nr >> 5] &= ~(1 << (nr & 0x1f)). */
  function SetBitAt(addr: seq<nat>, nr: nat): seq<nat>
    requires Shr(nr, 5) < |addr|
  {
    addr[Shr(nr, 5) := SetBit(addr[Shr(nr, 5)], And(nr, 0x1f))]
  }

  function ClearBitAt(addr: seq<nat>, nr: nat): seq<nat>
    requires Shr(nr, 5) < |addr| && AreWords(addr)
  {
    addr[Shr(nr, 5) := ClearBit(addr[Shr(nr, 5)], And(nr, 0x1f))]
  }

  predicate AreWords(addr: seq<nat>) {
    forall i :: 0 <= i < |addr| ==> addr[i] <= WORD_MAX
  }

  /** Bit i of the array, counted from the first word's lowest. */
  predicate BitAt(addr: seq<nat>, i: nat)
    requires i / 32 < |addr|
  {
    Bit(addr[i / 32], i % 32)
  }

  lemma WordAndBit(nr: nat)
    ensures Shr(nr, 5) == nr / 32 && And(nr, 0x1f) == nr % 32
  {
    assert Pow2(5) == 32;
    hide Pow2, Shr, And;
    ShrBounds(nr, 5);
    AndLow(nr / 32, nr % 32, 5);
  }

  lemma PlaceInWord(i: nat, j: nat)
    ensures i / 32 == j / 32 && i % 32 == j % 32 ==> i == j
    ensures i % 32 < 32
  {
  }

  /** set_bit sets bit nr of the array and no other. */
  lemma SetBitAtIsSet(addr: seq<nat>, nr: nat)
    requires Shr(nr, 5) < |addr| && AreWords(addr)
    ensures AreWords(SetBitAt(addr, nr)) && |SetBitAt(addr, nr)| == |addr|
    ensures forall i: nat {:trigger BitAt(SetBitAt(addr, nr), i)} :: i / 32 < |addr| ==>
      (BitAt(SetBitAt(addr, nr), i) <==> i == nr || BitAt(addr, i))
  {
    WordAndBit(nr);
    hide Shr, And, Bit, SetBit;
    SetBitIsSet(addr[nr / 32], nr % 32);
    forall i: nat | i / 32 < |addr|
      ensures BitAt(SetBitAt(addr, nr), i) <==> i == nr || BitAt(addr, i)
    {
      PlaceInWord(i, nr);
    }
  }

  /** clear_bit clears bit nr of the array and no other. */
  lemma ClearBitAtIsClear(addr: seq<nat>, nr: nat)
    requires Shr(nr, 5) < |addr| && AreWords(addr)
    ensures AreWords(ClearBitAt(addr, nr)) && |ClearBitAt(addr, nr)| == |addr|
    ensures forall i: nat {:trigger BitAt(ClearBitAt(addr, nr), i)} :: i / 32 < |addr| ==>
      (BitAt(ClearBitAt(addr, nr), i) <==> i != nr && BitAt(addr, i))
  {
    WordAndBit(nr);
    hide Shr, And, Bit, ClearBit;
    ClearBitIsClear(addr[nr / 32], nr % 32);
    forall i: nat | i / 32 < |addr|
      ensures BitAt(ClearBitAt(addr, nr), i) <==> i != nr && BitAt(addr, i)
    {
      PlaceInWord(i, nr);
    }
  }

  /** w & (~0 << k). */
  function MaskFrom(w: nat, k: nat): nat {
    And(w, Shl(WORD_MAX, k))
  }

  lemma MaskFromKeeps(w: nat, k: nat)
    requires w <= WORD_MAX && k < 32
    ensures MaskFrom(w, k) <= WORD_MAX
    ensures forall i: nat {:trigger Bit(MaskFrom(w, k), i)} {:trigger Bit(w, i)} :: i < 32 ==>
      (Bit(MaskFrom(w, k), i) <==> i >= k && Bit(w, i))
  {
    forall i: nat | i < 32
      ensures Bit(MaskFrom(w, k), i) <==> i >= k && Bit(w, i)
    {
      BitAnd(w, Shl(WORD_MAX, k), i);
      BitFrom(k, i);
    }
  }

  lemma NoBits(w: nat)
    requires w == 0
    ensures forall i: nat {:trigger Bit(w, i)} :: !Bit(w, i)
  {
    forall i: nat
      ensures !Bit(w, i)
    {
      BitOfZero(i);
    }
  }

  /** A right shift is the quotient by 2^k, rounded down. */
  lemma {:induction false} ShrBounds(w: nat, k: nat)
    ensures Shr(w, k) * Pow2(k) <= w < Shr(w, k) * Pow2(k) + Pow2(k)
  {
    if k > 0 {
      var q, p := Shr(w / 2, k - 1), Pow2(k - 1);
      assert Shr(w, k) == q && Pow2(k) == 2 * p;
      hide Shr, Pow2;
      ShrBounds(w / 2, k - 1);
      TwiceMul(q, p);
    }
  }

  lemma MulOrder(a: nat, b: nat, p: nat)
    ensures a <= b ==> a * p <= b * p
    ensures (a + 1) * p == a * p + p
  {
  }

  lemma ShrBetween(w: nat, k: nat, lo: nat, hi: nat)
    requires lo * Pow2(k) <= w < hi * Pow2(k)
    ensures lo <= Shr(w, k) < hi
  {
    ShrBounds(w, k);
    MulOrder(Shr(w, k) + 1, lo, Pow2(k));
    MulOrder(Shr(w, k), lo, Pow2(k));
    MulOrder(hi, Shr(w, k), Pow2(k));
  }
}
