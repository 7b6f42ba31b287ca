/** memcpy: lib/memcpy.c with LITTLE_ENDIAN and INDEXED_COPY, over a flat byte memory. */
module MemCopy {
  import opened Words

  const TYPE_WIDTH := 4

  type byte = b: int | 0 <= b < 256

  // ---------- little-endian words ----------

  /** The word of four bytes, lowest address first. */
  function Word4(b0: byte, b1: byte, b2: byte, b3: byte): (w: nat)
    ensures w <= WORD_MAX
  {
    b0 + 0x100 * b1 + 0x1_0000 * b2 + 0x100_0000 * b3
  }

  /** Byte k of a word. */
  function ByteAt(w: nat, k: nat): byte
    requires w <= WORD_MAX && k < 4
  {
    if k == 0 then w % 0x100 else if k == 1 then w / 0x100 % 0x100
    else if k == 2 then w / 0x1_0000 % 0x100 else w / 0x100_0000
  }

  lemma ByteOfWord4(b0: byte, b1: byte, b2: byte, b3: byte)
    ensures var w := Word4(b0, b1, b2, b3);
      ByteAt(w, 0) == b0 && ByteAt(w, 1) == b1 && ByteAt(w, 2) == b2 && ByteAt(w, 3) == b3
  {
    LowPart(b0, b1 + 0x100 * b2 + 0x1_0000 * b3);
    LowPart(b1, b2 + 0x100 * b3);
    LowPart(b2, b3);
    HighPart(b0 + 0x100 * b1, b2 + 0x100 * b3, b0 + 0x100 * b1 + 0x1_0000 * b2, b3);
  }

  lemma LowPart(r: nat, q: nat)
    requires r < 0x100
    ensures (r + 0x100 * q) % 0x100 == r && (r + 0x100 * q) / 0x100 == q
  {
  }

  lemma HighPart(r: nat, q: nat, s: nat, p: nat)
    requires r < 0x1_0000 && s < 0x100_0000
    ensures (r + 0x1_0000 * q) / 0x1_0000 == q && (s + 0x100_0000 * p) / 0x100_0000 == p
  {
  }

  /** dstWord = (w >> 8 * shift) | (v << 8 * (4 - shift)): the last bytes of w, then the first of v. */
  function Merge(w: nat, v: nat, shift: nat): nat
    requires 1 <= shift <= 3
  {
    Or(Shr(w, 8 * shift), Shl(v, 8 * (TYPE_WIDTH - shift)))
  }

  lemma ShrIs(w: nat, k: nat, q: nat)
    requires q * Pow2(k) <= w < q * Pow2(k) + Pow2(k)
    ensures Shr(w, k) == q
  {
    ShrBounds(w, k);
    MulOrder(Shr(w, k) + 1, q, Pow2(k));
    MulOrder(q + 1, Shr(w, k), Pow2(k));
    MulOrder(q, q, Pow2(k));
    MulOrder(Shr(w, k), q, Pow2(k));
  }

  /** v << k drops the high bits of v: d * 2^k is the word size. */
  lemma ShlIs(q: nat, r: nat, k: nat, d: nat)
    requires d * Pow2(k) == WORD_MAX + 1 && r < d
    ensures Shl(d * q + r, k) == r * Pow2(k)
  {
    hide Pow2;
    var p := Pow2(k);
    assert (d * q + r) * p == (WORD_MAX + 1) * q + r * p by { ProductIs(q, r, p, d); }
    MulOrder(r + 1, d, p);
    MulOrder(r, d, p);
    WholeWords(q, r * p);
  }

  lemma ProductIs(q: nat, r: nat, p: nat, d: nat)
    ensures (d * q + r) * p == (d * p) * q + r * p
  {
    assert (d * q) * p == (d * p) * q;
  }

  lemma MergeIs(w: nat, v: nat, shift: nat, lo: nat, hi: nat)
    requires 1 <= shift <= 3
    requires lo * Pow2(8 * shift) <= w < lo * Pow2(8 * shift) + Pow2(8 * shift)
    requires lo < Pow2(8 * (4 - shift))
    requires Shl(v, 8 * (4 - shift)) == hi * Pow2(8 * (4 - shift))
    ensures Merge(w, v, shift) == lo + hi * Pow2(8 * (4 - shift))
  {
    ShrIs(w, 8 * shift, lo);
    OrDisjoint(lo, hi, 8 * (4 - shift));
  }

  /** The merged word holds the last bytes of the first word, then the first bytes of the second. */
  lemma MergeOne(a0: byte, a1: byte, a2: byte, a3: byte, b0: byte, b1: byte, b2: byte, b3: byte)
    ensures Merge(Word4(a0, a1, a2, a3), Word4(b0, b1, b2, b3), 1) == Word4(a1, a2, a3, b0)
  {
    hide Merge, Shl, Pow2;
    Pow2Bytes();
    ShlIs(b1 + 0x100 * b2 + 0x1_0000 * b3, b0, 24, 0x100);
    MergeIs(Word4(a0, a1, a2, a3), Word4(b0, b1, b2, b3), 1, a1 + 0x100 * a2 + 0x1_0000 * a3, b0);
  }

  lemma MergeTwo(a0: byte, a1: byte, a2: byte, a3: byte, b0: byte, b1: byte, b2: byte, b3: byte)
    ensures Merge(Word4(a0, a1, a2, a3), Word4(b0, b1, b2, b3), 2) == Word4(a2, a3, b0, b1)
  {
    hide Merge, Shl, Pow2;
    Pow2Bytes();
    ShlIs(b2 + 0x100 * b3, b0 + 0x100 * b1, 16, 0x1_0000);
    MergeIs(Word4(a0, a1, a2, a3), Word4(b0, b1, b2, b3), 2, a2 + 0x100 * a3, b0 + 0x100 * b1);
  }

  lemma MergeThree(a0: byte, a1: byte, a2: byte, a3: byte, b0: byte, b1: byte, b2: byte, b3: byte)
    ensures Merge(Word4(a0, a1, a2, a3), Word4(b0, b1, b2, b3), 3) == Word4(a3, b0, b1, b2)
  {
    hide Merge, Shl, Pow2;
    Pow2Bytes();
    ShlIs(b3, b0 + 0x100 * b1 + 0x1_0000 * b2, 8, 0x100_0000);
    MergeIs(Word4(a0, a1, a2, a3), Word4(b0, b1, b2, b3), 3, a3, b0 + 0x100 * b1 + 0x1_0000 * b2);
  }

  // ---------- address arithmetic ----------

  predicate WordAligned(a: nat) {
    a % TYPE_WIDTH == 0
  }

  lemma NextWord(a: nat, i: nat)
    requires WordAligned(a)
    ensures WordAligned(a + 4 * i)
  {
  }

  lemma Aligned(x: nat)
    requires x <= WORD_MAX
    ensures And(x, 3) == x % 4 && And(x, Not(3)) == x - x % 4
  {
    hide And;
    assert Pow2(2) == 4;
    Pow2Bytes();
    hide Pow2;
    AndLow(x / 4, x % 4, 2);
    AndHigh(x / 4, x % 4, 2, 32);
  }

  /** A word address is the address of its first byte: alignment takes off less than a word. */
  lemma AlignedDown(a: nat)
    requires a <= WORD_MAX
    ensures var w := And(a, Not(TYPE_WIDTH - 1));
      WordAligned(w) && w + And(a, TYPE_WIDTH - 1) == a && And(a, TYPE_WIDTH - 1) <= 3
    ensures WordAligned(a) <==> And(a, TYPE_WIDTH - 1) == 0
  {
    Aligned(a);
  }

  lemma CountSplits(count: nat)
    requires count <= WORD_MAX
    ensures And(count, TYPE_WIDTH - 1) <= 3 && 4 * (count / TYPE_WIDTH) + And(count, TYPE_WIDTH - 1) == count
  {
    Aligned(count);
  }

  lemma NoneLeft()
    ensures And(0, 7) == 0
  {
  }

  lemma LowThree(x: nat)
    ensures And(x, 7) == x % 8
    ensures And(x, 7) == 0 ==> x == 8 * (x / 8)
  {
    hide And;
    assert Pow2(3) == 8;
    hide Pow2;
    AndLow(x / 8, x % 8, 3);
  }

  // ---------- the byte-by-byte copy ----------

  /** The memory after copying n bytes one at a time (section 7.21.2.1 of ISO/IEC 9899:1999). */
  function ByteCopy(m: seq<byte>, d: nat, s: nat, n: nat): (r: seq<byte>)
    requires d + n <= |m| && s + n <= |m|
    ensures |r| == |m|
    decreases n
  {
    if n == 0 then m else ByteCopy(m[d := m[s]], d + 1, s + 1, n - 1)
  }

  predicate Disjoint(d: nat, s: nat, n: nat) {
    d + n <= s || s + n <= d
  }

  /** Byte a once the first p bytes at d have been replaced by those at s. */
  function Moved(m0: seq<byte>, d: nat, s: nat, p: nat, a: nat): byte
    requires d + p <= |m0| && s + p <= |m0| && a < |m0|
  {
    if d <= a < d + p then m0[s + (a - d)] else m0[a]
  }

  ghost predicate Copied(m0: seq<byte>, m: seq<byte>, d: nat, s: nat, p: nat)
    requires d + p <= |m0| && s + p <= |m0|
  {
    |m| == |m0| &&
    forall a: nat :: a < |m| ==> m[a] == Moved(m0, d, s, p, a)
  }

  /** On disjoint buffers the byte-by-byte copy moves the source's old bytes and nothing else. */
  lemma {:induction false} ByteCopyMoves(m: seq<byte>, d: nat, s: nat, n: nat)
    requires d + n <= |m| && s + n <= |m| && Disjoint(d, s, n)
    ensures Copied(m, ByteCopy(m, d, s, n), d, s, n)
    decreases n
  {
    if n > 0 {
      var m1 := m[d := m[s]];
      ByteCopyMoves(m1, d + 1, s + 1, n - 1);
      var r := ByteCopy(m, d, s, n);
      forall a: nat | a < |m|
        ensures r[a] == Moved(m, d, s, n, a)
      {
        assert r[a] == Moved(m1, d + 1, s + 1, n - 1, a);
      }
    }
  }

  lemma CopiedIsByteCopy(m0: seq<byte>, m: seq<byte>, d: nat, s: nat, n: nat)
    requires d + n <= |m0| && s + n <= |m0| && Disjoint(d, s, n) && Copied(m0, m, d, s, n)
    ensures m == ByteCopy(m0, d, s, n)
  {
    ByteCopyMoves(m0, d, s, n);
    var r := ByteCopy(m0, d, s, n);
    forall a: nat | a < |m|
      ensures m[a] == r[a]
    {
      assert m[a] == Moved(m0, d, s, n, a);
      assert r[a] == Moved(m0, d, s, n, a);
    }
  }

  // ---------- the word-at-a-time copy ----------

  /** The buffers of one call: [dest, dest + count) and [src, src + count) of an address space
      of at most 2^32 bytes. */
  datatype Buffers = Buffers(dest: nat, src: nat, count: nat)

  ghost predicate Fits(u: Buffers, m: seq<byte>) {
    |m| % 4 == 0 && |m| <= WORD_MAX + 1 &&
    u.dest + u.count <= |m| && u.src + u.count <= |m| && Disjoint(u.dest, u.src, u.count)
  }

  ghost predicate Done(u: Buffers, m0: seq<byte>, m: seq<byte>, p: nat) {
    Fits(u, m0) && p <= u.count && Copied(m0, m, u.dest, u.src, p)
  }

  /** A word load: aligned, and holding at least one byte of the source. */
  method LoadWord(ram: array<byte>, a: nat, ghost u: Buffers) returns (w: nat)
    requires WordAligned(a) && a + 4 <= ram.Length
    requires u.src < a + 4 && a < u.src + u.count
    ensures w == Word4(ram[a], ram[a + 1], ram[a + 2], ram[a + 3])
  {
    w := Word4(ram[a], ram[a + 1], ram[a + 2], ram[a + 3]);
  }

  method StoreWord(ram: array<byte>, a: nat, w: nat)
    requires WordAligned(a) && a + 4 <= ram.Length && w <= WORD_MAX
    modifies ram
    ensures ram[..] ==
      old(ram[..])[a := ByteAt(w, 0)][a + 1 := ByteAt(w, 1)][a + 2 := ByteAt(w, 2)][a + 3 := ByteAt(w, 3)]
  {
    ram[a] := ByteAt(w, 0);
    ram[a + 1] := ByteAt(w, 1);
    ram[a + 2] := ByteAt(w, 2);
    ram[a + 3] := ByteAt(w, 3);
  }

  // ---- lemmas: what one store completes ----

  /** Until the copy is over the source still holds its old bytes. */
  lemma Kept(u: Buffers, m0: seq<byte>, m: seq<byte>, p: nat, a: nat)
    requires Done(u, m0, m, p) && u.src <= a < u.src + u.count
    ensures m[a] == m0[a]
  {
    assert m[a] == Moved(m0, u.dest, u.src, p, a);
  }

  lemma KeptWord(u: Buffers, m0: seq<byte>, m: seq<byte>, p: nat)
    requires Done(u, m0, m, p) && p + 4 <= u.count
    ensures var s := u.src + p; Same4(m, m0, s)
  {
    Kept(u, m0, m, p, u.src + p);
    Kept(u, m0, m, p, u.src + p + 1);
    Kept(u, m0, m, p, u.src + p + 2);
    Kept(u, m0, m, p, u.src + p + 3);
  }

  predicate Same4(m: seq<byte>, m0: seq<byte>, s: nat) {
    s + 4 <= |m| && s + 4 <= |m0| &&
    m[s] == m0[s] && m[s + 1] == m0[s + 1] && m[s + 2] == m0[s + 2] && m[s + 3] == m0[s + 3]
  }

  lemma StoredByte(u: Buffers, m0: seq<byte>, m: seq<byte>, m': seq<byte>, p: nat)
    requires Done(u, m0, m, p) && p < u.count
    requires m' == m[u.dest + p := m0[u.src + p]]
    ensures Done(u, m0, m', p + 1)
  {
    forall a: nat | a < |m'|
      ensures m'[a] == Moved(m0, u.dest, u.src, p + 1, a)
    {
      assert m[a] == Moved(m0, u.dest, u.src, p, a);
    }
  }

  method CopyByte(ram: array<byte>, dst8: nat, src8: nat, ghost u: Buffers, ghost m0: seq<byte>, ghost p: nat)
    requires p < u.count && Done(u, m0, ram[..], p) && dst8 == u.dest + p && src8 == u.src + p
    modifies ram
    ensures Done(u, m0, ram[..], p + 1)
  {
    ghost var was := ram[..];
    assert was[src8] == m0[src8] by { Kept(u, m0, was, p, src8); }
    ram[dst8] := ram[src8];
    StoredByte(u, m0, was, ram[..], p);
  }

  /** Storing the four bytes the source holds at offset p completes the copy up to p + 4. */
  lemma StoredWord(u: Buffers, m0: seq<byte>, m: seq<byte>, m': seq<byte>, p: nat)
    requires Done(u, m0, m, p) && p + 4 <= u.count
    requires var d, s := u.dest + p, u.src + p;
      m' == m[d := m0[s]][d + 1 := m0[s + 1]][d + 2 := m0[s + 2]][d + 3 := m0[s + 3]]
    ensures Done(u, m0, m', p + 4)
  {
    var d, s := u.dest + p, u.src + p;
    forall a: nat | a < |m'|
      ensures m'[a] == Moved(m0, u.dest, u.src, p + 4, a)
    {
      assert m[a] == Moved(m0, u.dest, u.src, p, a);
    }
  }

  /** CP: one aligned word to one aligned word. */
  method CopyWord(ram: array<byte>, dstN: nat, srcN: nat, ghost u: Buffers, ghost m0: seq<byte>, ghost p: nat)
    requires p + 4 <= u.count && Done(u, m0, ram[..], p) && dstN == u.dest + p && srcN == u.src + p
    requires WordAligned(dstN) && WordAligned(srcN)
    modifies ram
    ensures Done(u, m0, ram[..], p + 4)
  {
    ghost var was := ram[..];
    KeptWord(u, m0, was, p);
    var w := LoadWord(ram, srcN, u);
    ByteOfWord4(was[srcN], was[srcN + 1], was[srcN + 2], was[srcN + 3]);
    StoreWord(ram, dstN, w);
    StoredWord(u, m0, was, ram[..], p);
  }

  /** srcWord was loaded at the aligned address at: its bytes from shift on, as far as they are the
      source's, are the source's old bytes. */
  ghost predicate Carries(u: Buffers, m0: seq<byte>, srcWord: nat, g: seq<byte>, at: nat, shift: nat) {
    Fits(u, m0) && |g| == 4 && srcWord == Word4(g[0], g[1], g[2], g[3]) && at + 4 <= |m0| &&
    forall k: nat :: shift <= k < 4 && at + k < u.src + u.count ==> g[k] == m0[at + k]
  }

  lemma LoadCarries(u: Buffers, m0: seq<byte>, m: seq<byte>, p: nat, at: nat, shift: nat)
    requires Done(u, m0, m, p) && at + 4 <= |m| && u.src <= at + shift
    ensures Carries(u, m0, Word4(m[at], m[at + 1], m[at + 2], m[at + 3]), m[at..at + 4], at, shift)
  {
    var g := m[at..at + 4];
    forall k: nat | shift <= k < 4 && at + k < u.src + u.count
      ensures g[k] == m0[at + k]
    {
      Kept(u, m0, m, p, at + k);
    }
  }

  /** The carried word and the one after it merge into the four source bytes at offset p. */
  lemma MergedIsSource(u: Buffers, m0: seq<byte>, w: nat, g: seq<byte>, v: nat, g': seq<byte>,
                       p: nat, shift: nat)
    requires 1 <= shift <= 3 && p + 4 <= u.count && shift <= u.src + p
    requires var at := u.src + p - shift; Carries(u, m0, w, g, at, shift) && Carries(u, m0, v, g', at + 4, 0)
    ensures var s := u.src + p; Merge(w, v, shift) == Word4(m0[s], m0[s + 1], m0[s + 2], m0[s + 3])
  {
    hide Merge, Word4;
    var s, at := u.src + p, u.src + p - shift;
    if shift == 1 {
      MergeOne(g[0], g[1], g[2], g[3], g'[0], g'[1], g'[2], g'[3]);
      assert g[1] == m0[at + 1] && g[2] == m0[at + 2] && g[3] == m0[at + 3] && g'[0] == m0[at + 4 + 0];
    } else if shift == 2 {
      MergeTwo(g[0], g[1], g[2], g[3], g'[0], g'[1], g'[2], g'[3]);
      assert g[2] == m0[at + 2] && g[3] == m0[at + 3] && g'[0] == m0[at + 4 + 0] && g'[1] == m0[at + 4 + 1];
    } else {
      MergeThree(g[0], g[1], g[2], g[3], g'[0], g'[1], g'[2], g'[3]);
      assert g[3] == m0[at + 3] && g'[0] == m0[at + 4 + 0] && g'[1] == m0[at + 4 + 1] && g'[2] == m0[at + 4 + 2];
    }
  }

  /** CP_SH: the next aligned destination word, merged from the carried source word and the next one. */
  method CopyWordShifted(ram: array<byte>, dstN: nat, srcN: nat, word: nat, shift: nat,
                         ghost u: Buffers, ghost m0: seq<byte>, ghost p: nat, ghost g: seq<byte>)
    returns (srcWord: nat, ghost g': seq<byte>)
    requires 1 <= shift <= 3 && p + 4 <= u.count && Done(u, m0, ram[..], p)
    requires dstN == u.dest + p && WordAligned(dstN) && srcN + shift == u.src + p + 4 && WordAligned(srcN)
    requires srcN >= 4 && Carries(u, m0, word, g, srcN - 4, shift)
    modifies ram
    ensures Done(u, m0, ram[..], p + 4)
    ensures Carries(u, m0, srcWord, g', srcN, shift)
  {
    hide Word4, Or, Shr, Shl, ByteAt;
    ghost var was := ram[..];
    var dstWord := Shr(word, 8 * shift);
    srcWord := LoadWord(ram, srcN, u);
    g' := was[srcN..srcN + 4];
    LoadCarries(u, m0, was, p, srcN, 0);
    dstWord := Or(dstWord, Shl(srcWord, 8 * (TYPE_WIDTH - shift)));
    MergedIsSource(u, m0, word, g, srcWord, g', p, shift);
    ghost var s := u.src + p;
    ByteOfWord4(m0[s], m0[s + 1], m0[s + 2], m0[s + 3]);
    StoreWord(ram, dstN, dstWord);
    StoredWord(u, m0, was, ram[..], p);
  }

  // ---------- the routine ----------

  /** COPY_REMAINING: the switch falls through, so case n copies n bytes. */
  method CopyRemaining(ram: array<byte>, dst: nat, src: nat, count: nat,
                       ghost u: Buffers, ghost m0: seq<byte>, ghost p: nat)
    requires count < 8 && p + count == u.count && Done(u, m0, ram[..], p)
    requires dst == u.dest + p && src == u.src + p
    modifies ram
    ensures Done(u, m0, ram[..], u.count)
  {
    var dst8, src8 := dst, src;
    if count >= 7 { CopyByte(ram, dst8, src8, u, m0, p + count - 7); dst8, src8 := dst8 + 1, src8 + 1; }
    if count >= 6 { CopyByte(ram, dst8, src8, u, m0, p + count - 6); dst8, src8 := dst8 + 1, src8 + 1; }
    if count >= 5 { CopyByte(ram, dst8, src8, u, m0, p + count - 5); dst8, src8 := dst8 + 1, src8 + 1; }
    if count >= 4 { CopyByte(ram, dst8, src8, u, m0, p + count - 4); dst8, src8 := dst8 + 1, src8 + 1; }
    if count >= 3 { CopyByte(ram, dst8, src8, u, m0, p + count - 3); dst8, src8 := dst8 + 1, src8 + 1; }
    if count >= 2 { CopyByte(ram, dst8, src8, u, m0, p + count - 2); dst8, src8 := dst8 + 1, src8 + 1; }
    if count >= 1 { CopyByte(ram, dst8, src8, u, m0, p + count - 1); }
  }

  /** The unrolled loop body: eight aligned words. */
  method CopyEight(ram: array<byte>, dstN: nat, srcN: nat, ghost u: Buffers, ghost m0: seq<byte>, ghost p: nat)
    requires p + 32 <= u.count && Done(u, m0, ram[..], p) && dstN == u.dest + p && srcN == u.src + p
    requires WordAligned(dstN) && WordAligned(srcN)
    modifies ram
    ensures Done(u, m0, ram[..], p + 32)
  {
    hide Done;
    forall i: nat | i < 8
      ensures WordAligned(dstN + 4 * i) && WordAligned(srcN + 4 * i)
    {
      NextWord(dstN, i);
      NextWord(srcN, i);
    }
    hide WordAligned;
    CopyWord(ram, dstN + 4 * 0, srcN + 4 * 0, u, m0, p + 4 * 0);
    CopyWord(ram, dstN + 4 * 1, srcN + 4 * 1, u, m0, p + 4 * 1);
    CopyWord(ram, dstN + 4 * 2, srcN + 4 * 2, u, m0, p + 4 * 2);
    CopyWord(ram, dstN + 4 * 3, srcN + 4 * 3, u, m0, p + 4 * 3);
    CopyWord(ram, dstN + 4 * 4, srcN + 4 * 4, u, m0, p + 4 * 4);
    CopyWord(ram, dstN + 4 * 5, srcN + 4 * 5, u, m0, p + 4 * 5);
    CopyWord(ram, dstN + 4 * 6, srcN + 4 * 6, u, m0, p + 4 * 6);
    CopyWord(ram, dstN + 4 * 7, srcN + 4 * 7, u, m0, p + 4 * 7);
  }

  /** COPY_NO_SHIFT: both pointers are word aligned. */
  method CopyNoShift(ram: array<byte>, dst8: nat, src8: nat, count: nat,
                     ghost u: Buffers, ghost m0: seq<byte>, ghost p: nat)
    requires p + count == u.count && count <= WORD_MAX && Done(u, m0, ram[..], p)
    requires dst8 == u.dest + p && src8 == u.src + p && WordAligned(dst8) && WordAligned(src8)
    modifies ram
    ensures Done(u, m0, ram[..], u.count)
  {
    hide And, Done, WordAligned;
    CountSplits(count);
    NoneLeft();
    var dstN, srcN := dst8, src8;
    var length: nat := count / TYPE_WIDTH;
    ghost var q := p;
    while And(length, 7) != 0
      invariant q + 4 * length + And(count, TYPE_WIDTH - 1) == u.count
      invariant Done(u, m0, ram[..], q) && dstN == u.dest + q && srcN == u.src + q
      invariant WordAligned(dstN) && WordAligned(srcN)
      decreases length
    {
      CopyWord(ram, dstN, srcN, u, m0, q);
      NextWord(dstN, 1);
      NextWord(srcN, 1);
      dstN, srcN, q := dstN + 4, srcN + 4, q + 4;
      length := length - 1;
    }
    LowThree(length);
    length := length / 8;
    while length != 0
      invariant q + 32 * length + And(count, TYPE_WIDTH - 1) == u.count
      invariant Done(u, m0, ram[..], q) && dstN == u.dest + q && srcN == u.src + q
      invariant WordAligned(dstN) && WordAligned(srcN)
      decreases length
    {
      length := length - 1;
      CopyEight(ram, dstN, srcN, u, m0, q);
      NextWord(dstN, 8);
      NextWord(srcN, 8);
      dstN, srcN, q := dstN + 32, srcN + 32, q + 32;
    }
    CopyRemaining(ram, dstN, srcN, And(count, TYPE_WIDTH - 1), u, m0, q);
  }

  /** The unrolled loop body: eight merged words. */
  method CopyEightShifted(ram: array<byte>, dstN: nat, srcN: nat, word: nat, shift: nat,
                          ghost u: Buffers, ghost m0: seq<byte>, ghost p: nat, ghost g: seq<byte>)
    returns (srcWord: nat, ghost g': seq<byte>)
    requires 1 <= shift <= 3 && p + 32 <= u.count && Done(u, m0, ram[..], p)
    requires dstN == u.dest + p && WordAligned(dstN) && srcN + shift == u.src + p + 4 && WordAligned(srcN)
    requires srcN >= 4 && Carries(u, m0, word, g, srcN - 4, shift)
    modifies ram
    ensures Done(u, m0, ram[..], p + 32)
    ensures Carries(u, m0, srcWord, g', srcN + 28, shift)
  {
    hide WordAligned;
    hide Done, Carries;
    forall i: nat | i < 8
      ensures WordAligned(dstN + 4 * i) && WordAligned(srcN + 4 * i)
    {
      NextWord(dstN, i);
      NextWord(srcN, i);
    }
    srcWord, g' := word, g;
    srcWord, g' := CopyWordShifted(ram, dstN + 4 * 0, srcN + 4 * 0, srcWord, shift, u, m0, p + 4 * 0, g');
    srcWord, g' := CopyWordShifted(ram, dstN + 4 * 1, srcN + 4 * 1, srcWord, shift, u, m0, p + 4 * 1, g');
    srcWord, g' := CopyWordShifted(ram, dstN + 4 * 2, srcN + 4 * 2, srcWord, shift, u, m0, p + 4 * 2, g');
    srcWord, g' := CopyWordShifted(ram, dstN + 4 * 3, srcN + 4 * 3, srcWord, shift, u, m0, p + 4 * 3, g');
    srcWord, g' := CopyWordShifted(ram, dstN + 4 * 4, srcN + 4 * 4, srcWord, shift, u, m0, p + 4 * 4, g');
    srcWord, g' := CopyWordShifted(ram, dstN + 4 * 5, srcN + 4 * 5, srcWord, shift, u, m0, p + 4 * 5, g');
    srcWord, g' := CopyWordShifted(ram, dstN + 4 * 6, srcN + 4 * 6, srcWord, shift, u, m0, p + 4 * 6, g');
    srcWord, g' := CopyWordShifted(ram, dstN + 4 * 7, srcN + 4 * 7, srcWord, shift, u, m0, p + 4 * 7, g');
  }

  /** The first word COPY_SHIFT loads: the aligned word holding the first source byte left. */
  method LoadFirst(ram: array<byte>, srcN: nat, shift: nat, ghost u: Buffers, ghost m0: seq<byte>, ghost p: nat)
    returns (srcWord: nat, ghost g: seq<byte>)
    requires 1 <= shift <= 3 && p < u.count && Done(u, m0, ram[..], p)
    requires WordAligned(srcN) && srcN + shift == u.src + p
    ensures Carries(u, m0, srcWord, g, srcN, shift)
  {
    hide Word4;
    LoadCarries(u, m0, ram[..], p, srcN, shift);
    g := ram[srcN..srcN + 4];
    srcWord := LoadWord(ram, srcN, u);
  }

  /** COPY_SHIFT(shift): the source is shift bytes past a word boundary. */
  method CopyShift(ram: array<byte>, dst8: nat, src8: nat, count: nat, shift: nat,
                   ghost u: Buffers, ghost m0: seq<byte>, ghost p: nat)
    requires 1 <= shift <= 3 && src8 <= WORD_MAX && And(src8, TYPE_WIDTH - 1) == shift
    requires dst8 <= WORD_MAX && WordAligned(dst8)
    requires p + count == u.count && 0 < count <= WORD_MAX && Done(u, m0, ram[..], p)
    requires dst8 == u.dest + p && src8 == u.src + p
    modifies ram
    ensures Done(u, m0, ram[..], u.count)
  {
    hide And, Done, Carries, WordAligned;
    AlignedDown(dst8);
    AlignedDown(src8);
    CountSplits(count);
    NoneLeft();
    var dstN := And(dst8, Not(TYPE_WIDTH - 1));
    var srcN := And(src8, Not(TYPE_WIDTH - 1));
    var length: nat := count / TYPE_WIDTH;
    ghost var q := p;
    var srcWord, g := LoadFirst(ram, srcN, shift, u, m0, p);
    NextWord(srcN, 1);
    srcN := srcN + 4;
    while And(length, 7) != 0
      invariant q + 4 * length + And(count, TYPE_WIDTH - 1) == u.count
      invariant Done(u, m0, ram[..], q) && dstN == u.dest + q && srcN + shift == u.src + q + 4
      invariant WordAligned(dstN) && WordAligned(srcN) && srcN >= 4
      invariant Carries(u, m0, srcWord, g, srcN - 4, shift)
      decreases length
    {
      srcWord, g := CopyWordShifted(ram, dstN, srcN, srcWord, shift, u, m0, q, g);
      NextWord(dstN, 1);
      NextWord(srcN, 1);
      dstN, srcN, q := dstN + 4, srcN + 4, q + 4;
      length := length - 1;
    }
    LowThree(length);
    length := length / 8;
    while length != 0
      invariant q + 32 * length + And(count, TYPE_WIDTH - 1) == u.count
      invariant Done(u, m0, ram[..], q) && dstN == u.dest + q && srcN + shift == u.src + q + 4
      invariant WordAligned(dstN) && WordAligned(srcN) && srcN >= 4
      invariant Carries(u, m0, srcWord, g, srcN - 4, shift)
      decreases length
    {
      length := length - 1;
      srcWord, g := CopyEightShifted(ram, dstN, srcN, srcWord, shift, u, m0, q, g);
      NextWord(dstN, 8);
      NextWord(srcN, 8);
      dstN, srcN, q := dstN + 32, srcN + 32, q + 32;
    }
    CopyRemaining(ram, dstN, srcN + shift - TYPE_WIDTH, And(count, TYPE_WIDTH - 1), u, m0, q);
  }

  /** memcpy over disjoint buffers of any length and any alignment: the byte-by-byte copy. */
  method Memcpy(ram: array<byte>, dest: nat, src: nat, n: nat) returns (r: nat)
    requires Fits(Buffers(dest, src, n), ram[..])
    modifies ram
    ensures ram[..] == ByteCopy(old(ram[..]), dest, src, n)
    ensures r == dest
  {
    hide And;
    ghost var u, m0, p := Buffers(dest, src, n), ram[..], 0;
    r := dest;
    var dst8, src8, count := dest, src, n;
    if count < 8 {
      CopyRemaining(ram, dst8, src8, count, u, m0, 0);
    } else {
      Aligned(dst8);
      while And(dst8, TYPE_WIDTH - 1) != 0
        invariant p + count == n && Done(u, m0, ram[..], p) && dst8 == dest + p && src8 == src + p
        invariant And(dst8, 3) == dst8 % 4 && count >= 5 + (if dst8 % 4 == 0 then 0 else 4 - dst8 % 4)
        decreases count
      {
        CopyByte(ram, dst8, src8, u, m0, p);
        dst8, src8, p := dst8 + 1, src8 + 1, p + 1;
        count := count - 1;
        Aligned(dst8);
      }
      Aligned(src8);
      match And(src8, TYPE_WIDTH - 1)
      case 0 => CopyNoShift(ram, dst8, src8, count, u, m0, p);
      case 1 => CopyShift(ram, dst8, src8, count, 1, u, m0, p);
      case 2 => CopyShift(ram, dst8, src8, count, 2, u, m0, p);
      case _ => CopyShift(ram, dst8, src8, count, 3, u, m0, p);
    }
    CopiedIsByteCopy(m0, ram[..], dest, src, n);
  }
}
