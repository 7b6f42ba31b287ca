/** memset: lib/memset.c over the byte memory of MemCopy. */
module MemSet {
  import opened Words
  import opened MemCopy

  const WSIZE := 4

  /** The low byte of an int argument, as the cast to an unsigned char takes it. */
  function LowByte(c0: int): byte {
    c0 % 256
  }

  // ---------- the byte-by-byte fill ----------

  /** The memory after storing b into n bytes one at a time (section 7.21.6.1 of ISO/IEC 9899:1999). */
  function ByteFill(m: seq<byte>, d: nat, b: byte, n: nat): (r: seq<byte>)
    requires d + n <= |m|
    ensures |r| == |m|
    decreases n
  {
    if n == 0 then m else ByteFill(m[d := b], d + 1, b, n - 1)
  }

  ghost predicate Filled(m0: seq<byte>, m: seq<byte>, d: nat, b: byte, p: nat) {
    |m| == |m0| && forall a: nat :: a < |m| ==> m[a] == if d <= a < d + p then b else m0[a]
  }

  lemma {:induction false} ByteFillStores(m: seq<byte>, d: nat, b: byte, n: nat)
    requires d + n <= |m|
    ensures Filled(m, ByteFill(m, d, b, n), d, b, n)
    decreases n
  {
    if n > 0 { ByteFillStores(m[d := b], d + 1, b, n - 1); }
  }

  lemma FilledIsByteFill(m0: seq<byte>, m: seq<byte>, d: nat, b: byte, n: nat)
    requires d + n <= |m0| && Filled(m0, m, d, b, n)
    ensures m == ByteFill(m0, d, b, n)
  {
    ByteFillStores(m0, d, b, n);
  }

  // ---------- the fill word ----------

  /** (c << 8 * n) | c doubles a pattern of n bytes. */
  lemma Doubled(c: nat, k: nat)
    requires c < Pow2(k) && c * Pow2(k) <= WORD_MAX
    ensures Or(Shl(c, k), c) == c * Pow2(k) + c
  {
    hide Pow2;
    WholeWords(0, c * Pow2(k));
    OrCommutes(Shl(c, k), c);
    OrDisjoint(c, c, k);
  }

  method FillWord(c0: int) returns (c: nat)
    ensures var b := LowByte(c0); c == Word4(b, b, b, b)
  {
    hide Or, Shl;
    c := LowByte(c0);
    if c != 0 {
      Pow2Bytes();
      hide Pow2;
      Doubled(c, 8);
      c := Or(Shl(c, 8), c);
      Doubled(c, 16);
      c := Or(Shl(c, 16), c);
    }
  }

  // ---------- the routine ----------

  /** The bytes of one call: [dest, dest + count), each to be set to b. */
  datatype Buffer = Buffer(dest: nat, b: byte, count: nat)

  ghost predicate Set(u: Buffer, m0: seq<byte>, m: seq<byte>, p: nat) {
    |m0| % 4 == 0 && |m0| <= WORD_MAX + 1 && u.dest + u.count <= |m0| && p <= u.count &&
    Filled(m0, m, u.dest, u.b, p)
  }

  method SetByte(ram: array<byte>, dst: nat, c0: int, ghost u: Buffer, ghost m0: seq<byte>, ghost p: nat)
    requires p < u.count && Set(u, m0, ram[..], p) && dst == u.dest + p && u.b == LowByte(c0)
    modifies ram
    ensures Set(u, m0, ram[..], p + 1)
  {
    ram[dst] := LowByte(c0);
  }

  method SetWord(ram: array<byte>, dst: nat, c: nat, ghost u: Buffer, ghost m0: seq<byte>, ghost p: nat)
    requires p + 4 <= u.count && Set(u, m0, ram[..], p) && dst == u.dest + p
    requires WordAligned(dst) && c == Word4(u.b, u.b, u.b, u.b)
    modifies ram
    ensures Set(u, m0, ram[..], p + 4)
  {
    hide Word4, ByteAt;
    ByteOfWord4(u.b, u.b, u.b, u.b);
    StoreWord(ram, dst, c);
  }

  /** do { *dst++ = VAL; } while (--t != 0): a t of 0 on entry would wrap. */
  method SetBytes(ram: array<byte>, dst0: nat, c0: int, t0: nat, ghost u: Buffer, ghost m0: seq<byte>, ghost p: nat)
    requires 1 <= t0 && p + t0 <= u.count && Set(u, m0, ram[..], p) && dst0 == u.dest + p && u.b == LowByte(c0)
    modifies ram
    ensures Set(u, m0, ram[..], p + t0)
  {
    hide Set, LowByte;
    var dst, t: nat := dst0, t0;
    ghost var q := p;
    while true
      invariant 1 <= t && q + t == p + t0 && dst == u.dest + q && Set(u, m0, ram[..], q)
      decreases t
    {
      SetByte(ram, dst, c0, u, m0, q);
      dst, q := dst + 1, q + 1;
      t := t - 1;
      if t == 0 { break; }
    }
  }

  /** The word loop, with the same do-while counter. */
  method SetWords(ram: array<byte>, dst0: nat, c: nat, t0: nat, ghost u: Buffer, ghost m0: seq<byte>, ghost p: nat)
    requires 1 <= t0 && p + 4 * t0 <= u.count && Set(u, m0, ram[..], p) && dst0 == u.dest + p
    requires WordAligned(dst0) && c == Word4(u.b, u.b, u.b, u.b)
    modifies ram
    ensures Set(u, m0, ram[..], p + 4 * t0)
  {
    hide Set, Word4, WordAligned;
    var dst, t: nat := dst0, t0;
    ghost var q := p;
    while true
      invariant 1 <= t && q + 4 * t == p + 4 * t0 && dst == u.dest + q && WordAligned(dst)
      invariant Set(u, m0, ram[..], q)
      decreases t
    {
      SetWord(ram, dst, c, u, m0, q);
      NextWord(dst, 1);
      dst, q := dst + WSIZE, q + 4;
      t := t - 1;
      if t == 0 { break; }
    }
  }

  /** The bytes to the next word boundary, and what they leave. */
  lemma ToBoundary(dst: nat)
    requires dst <= WORD_MAX
    ensures var t := And(dst, WSIZE - 1);
      t <= 3 && (t != 0 ==> WordAligned(dst + (WSIZE - t))) && (t == 0 ==> WordAligned(dst))
  {
    Aligned(dst);
  }

  /** memset of any length at any alignment: the byte-by-byte fill with the low byte of c0. */
  method Memset(ram: array<byte>, dst0: nat, c0: int, n: nat) returns (r: nat)
    requires ram.Length % 4 == 0 && ram.Length <= WORD_MAX + 1 && dst0 + n <= ram.Length && n <= WORD_MAX
    modifies ram
    ensures ram[..] == ByteFill(old(ram[..]), dst0, LowByte(c0), n)
    ensures r == dst0
  {
    hide And, Word4, WordAligned, LowByte;
    ghost var u, m0, p := Buffer(dst0, LowByte(c0), n), ram[..], 0;
    r := dst0;
    var dst, length: nat := dst0, n;
    if length < 3 * WSIZE {
      while length != 0
        invariant p + length == n && dst == dst0 + p && Set(u, m0, ram[..], p)
      {
        SetByte(ram, dst, c0, u, m0, p);
        dst, p := dst + 1, p + 1;
        length := length - 1;
      }
    } else {
      var c := FillWord(c0);
      ToBoundary(dst);
      var t: nat := And(dst, WSIZE - 1);
      if t != 0 {
        t := WSIZE - t;
        length := length - t;
        SetBytes(ram, dst, c0, t, u, m0, p);
        dst, p := dst + t, p + t;
      }
      CountSplits(length);
      t := length / WSIZE;
      SetWords(ram, dst, c, t, u, m0, p);
      dst, p := dst + WSIZE * t, p + WSIZE * t;
      t := And(length, WSIZE - 1);
      if t != 0 { SetBytes(ram, dst, c0, t, u, m0, p); }
    }
    FilledIsByteFill(m0, ram[..], dst0, LowByte(c0), n);
  }
}
