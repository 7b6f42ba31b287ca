/** The size word of a block header: a multiple of 4 with two flags in its low bits. */
module Header {
  import opened Words

  const FREE_BLOCK: nat := 1
  const PREV_FREE: nat := 2
  const BLOCK_SIZE: nat := 0xFFFF_FFFC

  /** size & BLOCK_SIZE, size & FREE_BLOCK and size & PREV_FREE. */
  function SizeBits(w: nat): nat { And(w, BLOCK_SIZE) }
  function FreeBit(w: nat): nat { And(w, FREE_BLOCK) }
  function PrevFreeBit(w: nat): nat { And(w, PREV_FREE) }

  /** size |= f and size &= ~f. */
  function Set(w: nat, f: nat): nat { Or(w, f) }
  function Clear(w: nat, f: nat): nat
    requires f <= WORD_MAX
  {
    And(w, Not(f))
  }

  /** The word of a block of the given size and state, after a block of the given state. */
  function Word(size: nat, free: bool, prevFree: bool): nat {
    size + (if free then FREE_BLOCK else 0) + (if prevFree then PREV_FREE else 0)
  }

  predicate IsSize(size: int) {
    0 <= size < 0x4000_0000 && size % 4 == 0
  }

  /** And, one bit at a time. */
  lemma AndBit(q: nat, r: nat, m: nat, s: nat)
    requires r < 2 && s < 2
    ensures And(2 * q + r, 2 * m + s) == 2 * And(q, m) + if r == 1 && s == 1 then 1 else 0
  {
  }

  lemma And4(q: nat, r: nat, m: nat, s: nat)
    requires r < 4 && s < 4
    ensures And(4 * q + r, 4 * m + s) == 4 * And(q, m) + And(r, s)
  {
    hide And;
    assert And(0, 0) == 0;
    var r1, r0, s1, s0 := r / 2, r % 2, s / 2, s % 2;
    AndBit(2 * q + r1, r0, 2 * m + s1, s0);
    AndBit(q, r1, m, s1);
    AndBit(r1, r0, s1, s0);
    AndBit(0, r1, 0, s1);
  }

  lemma Or4(q: nat, r: nat, s: nat)
    requires r < 4 && s < 4
    ensures Or(4 * q + r, s) == 4 * q + Or(r, s)
  {
    var a := 4 * q + r;
    assert a / 2 == 2 * q + r / 2;
    assert Or(a / 2, s / 2) == (if s / 2 == 0 then a / 2 else if a / 2 == 0 then s / 2 else
      (if a / 2 % 2 == 1 || s / 2 % 2 == 1 then 1 else 0) + 2 * q);
  }

  lemma SmallAnd(r: nat)
    requires r < 4
    ensures And(r, 0) == 0 && And(r, 1) == r % 2 && And(r, 2) == r / 2 * 2 && And(r, 3) == r
    ensures And(r, 2) == r - r % 2 && And(r, 1) == r - r / 2 * 2
  {
  }

  lemma SmallOr(r: nat)
    requires r < 4
    ensures Or(r, 0) == r && Or(r, 1) == r / 2 * 2 + 1 && Or(r, 2) == r % 2 + 2
  {
  }

  /** ~f keeps everything above the two flags. */
  lemma KeepHigh(q: nat, r: nat, f: nat, s: nat)
    requires q < 0x1000_0000 && r < 4 && s < 4 && f + s == 3
    ensures And(4 * q + r, Not(f)) == 4 * q + And(r, s)
  {
    Pow2Thirty();
    hide And, Pow2;
    And4(q, r, 0x3FFF_FFFF, s);
    AndAll(q, 30);
  }

  lemma ReadFlags(size: int, free: bool, prevFree: bool)
    requires IsSize(size)
    ensures var w := Word(size, free, prevFree);
      && FreeBit(w) == (if free then FREE_BLOCK else 0)
      && PrevFreeBit(w) == (if prevFree then PREV_FREE else 0)
  {
    var q, r := size / 4, Word(0, free, prevFree);
    And4(q, r, 0, 1);
    And4(q, r, 0, 2);
    SmallAnd(r);
  }

  lemma ReadSize(size: int, free: bool, prevFree: bool)
    requires IsSize(size)
    ensures SizeBits(Word(size, free, prevFree)) == size
  {
    var q, r := size / 4, Word(0, free, prevFree);
    assert size == 4 * q && q < 0x1000_0000;
    hide And, IsSize;
    SmallAnd(r);
    KeepHigh(q, r, 3, 0);
  }

  lemma SetFlags(size: int, free: bool, prevFree: bool)
    requires IsSize(size)
    ensures var w := Word(size, free, prevFree);
      && Set(w, FREE_BLOCK) == Word(size, true, prevFree)
      && Set(w, PREV_FREE) == Word(size, free, true)
      && Set(w, 0) == w
  {
    var q, r := size / 4, Word(0, free, prevFree);
    Or4(q, r, 1);
    Or4(q, r, 2);
    SmallOr(r);
  }

  lemma ClearFlags(size: int, free: bool, prevFree: bool)
    requires IsSize(size)
    ensures var w := Word(size, free, prevFree);
      && Clear(w, FREE_BLOCK) == Word(size, false, prevFree)
      && Clear(w, PREV_FREE) == Word(size, free, false)
  {
    var q, r := size / 4, Word(0, free, prevFree);
    assert size == 4 * q && q < 0x1000_0000;
    hide And, IsSize;
    SmallAnd(r);
    KeepHigh(q, r, FREE_BLOCK, 2);
    KeepHigh(q, r, PREV_FREE, 1);
  }
}
