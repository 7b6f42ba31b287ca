/** The physical view of an area: blocks laid end to end, from the block that holds the area
    information to the zero-size sentinel. */
module Tiling {
  const BHDR_OVERHEAD := 8
  const MIN_BLOCK_SIZE := 8
  const SIZEOF_BHDR := 16

  /** A block, at its header address: payload size, state, and the address of the block before it. */
  datatype Block = Block(size: int, free: bool, prev: int)

  type Blocks = map<int, Block>

  function Min(a: int, b: int): int {
    if a <= b then a else b
  }

  /** GET_NEXT_BLOCK. */
  function Next(bs: Blocks, a: int): int {
    if a in bs then a + BHDR_OVERHEAD + bs[a].size else a
  }

  function Prev(bs: Blocks, a: int): int {
    if a in bs then bs[a].prev else 0
  }

  predicate IsFree(bs: Blocks, a: int) {
    a in bs && bs[a].free
  }

  /** No block starts inside another. */
  ghost predicate Ordered(bs: Blocks) {
    forall a, b {:trigger Next(bs, a), b in bs} :: a in bs && b in bs && a < b ==> Next(bs, a) <= b
  }

  /** Every block but the last is followed by a block that points back to it... */
  ghost predicate Forward(bs: Blocks, end: int) {
    forall a {:trigger Next(bs, a)} :: a in bs && a != end ==> Next(bs, a) in bs && Prev(bs, Next(bs, a)) == a
  }

  /** ...and every block but the first follows the block it points back to. */
  ghost predicate Backward(bs: Blocks, first: int) {
    forall a {:trigger Prev(bs, a)} :: a in bs && a != first ==> Prev(bs, a) in bs && Next(bs, Prev(bs, a)) == a
  }

  ghost predicate Sized(bs: Blocks, first: int, end: int) {
    forall a {:trigger a in bs} :: a in bs ==>
      && first <= a <= end
      && (a - first) % 8 == 0
      && (a != end ==> bs[a].size >= MIN_BLOCK_SIZE && bs[a].size % 8 == 0)
  }

  ghost predicate Ends(bs: Blocks, first: int, end: int) {
    && 0 < first < end
    && first in bs && end in bs
    && bs[end].size == 0 && !bs[end].free && !bs[first].free
    && bs[first].prev == 0 && bs[first].size == MIN_BLOCK_SIZE
  }

  /** The blocks tile [first, end + 8) exactly. */
  ghost predicate Tiled(bs: Blocks, first: int, end: int) {
    && Ends(bs, first, end)
    && Sized(bs, first, end)
    && Ordered(bs)
    && Forward(bs, end)
    && Backward(bs, first)
  }

  /** No two neighbours are free. */
  ghost predicate Coalesced(bs: Blocks) {
    forall a {:trigger Next(bs, a)} :: IsFree(bs, a) ==> !IsFree(bs, Next(bs, a))
  }

  // ---------- the three changes a call makes ----------

  function Mark(bs: Blocks, b: int, free: bool): Blocks
    requires b in bs
  {
    bs[b := bs[b].(free := free)]
  }

  /** Cut a block after n payload bytes; the rest becomes a free block. */
  function Split(bs: Blocks, b: int, n: int): Blocks
    requires b in bs && Next(bs, b) in bs
  {
    var b2, nb := b + BHDR_OVERHEAD + n, Next(bs, b);
    bs[b := bs[b].(size := n)][b2 := Block(bs[b].size - n - BHDR_OVERHEAD, true, b)][nb := bs[nb].(prev := b2)]
  }

  /** Merge a block with the one after it. */
  function Absorb(bs: Blocks, b: int): Blocks
    requires b in bs && Next(bs, b) in bs && Next(bs, Next(bs, b)) in bs
  {
    var n := Next(bs, b);
    var nn := Next(bs, n);
    (bs - {n})[b := bs[b].(size := bs[b].size + BHDR_OVERHEAD + bs[n].size)][nn := bs[nn].(prev := b)]
  }

  lemma MarkTiled(bs: Blocks, first: int, end: int, b: int, free: bool)
    requires Tiled(bs, first, end) && b in bs && b != end && b != first
    ensures Tiled(Mark(bs, b, free), first, end)
  {
    var t := Mark(bs, b, free);
    assert forall a {:trigger Next(t, a)} :: Next(t, a) == Next(bs, a);
    assert forall a {:trigger Prev(t, a)} :: Prev(t, a) == Prev(bs, a);
  }

  /** What a split changes: the next block of everything but the two halves is as before. */
  lemma SplitNext(bs: Blocks, first: int, end: int, b: int, n: int)
    requires Tiled(bs, first, end) && b in bs && b != end
    requires n >= MIN_BLOCK_SIZE && n % 8 == 0 && bs[b].size >= n + SIZEOF_BHDR
    ensures Next(bs, b) in bs && Next(bs, b) > b
    ensures var b2, nb, t := b + BHDR_OVERHEAD + n, Next(bs, b), Split(bs, b, n);
      && b < b2 < nb
      && b2 !in bs
      && Next(t, b) == b2 && Next(t, b2) == nb
      && (forall a {:trigger Next(t, a)} :: a != b && a != b2 ==> Next(t, a) == Next(bs, a))
      && Prev(t, b2) == b && Prev(t, nb) == b2
      && (forall a {:trigger Prev(t, a)} :: a != b2 && a != nb ==> Prev(t, a) == Prev(bs, a))
  {
    var b2, nb := b + BHDR_OVERHEAD + n, Next(bs, b);
    assert nb in bs;
  }

  lemma SplitSized(bs: Blocks, first: int, end: int, b: int, n: int)
    requires Tiled(bs, first, end) && b in bs && b != end && b != first
    requires n >= MIN_BLOCK_SIZE && n % 8 == 0 && bs[b].size >= n + SIZEOF_BHDR
    ensures Ends(Split(bs, b, n), first, end) && Sized(Split(bs, b, n), first, end)
  {
    SplitNext(bs, first, end, b, n);
  }

  lemma SplitOrdered(bs: Blocks, first: int, end: int, b: int, n: int)
    requires Tiled(bs, first, end) && b in bs && b != end
    requires n >= MIN_BLOCK_SIZE && n % 8 == 0 && bs[b].size >= n + SIZEOF_BHDR
    ensures Ordered(Split(bs, b, n))
  {
    SplitNext(bs, first, end, b, n);
    hide Sized, Forward, Backward, Ends;
    var t := Split(bs, b, n);
    var b2, nb := b + BHDR_OVERHEAD + n, Next(bs, b);
    forall x, y | x in t && y in t && x < y
      ensures Next(t, x) <= y
    {
      assert Next(bs, b) == nb;
      if x == b2 { if y != nb { assert Next(bs, b) <= y; } }
      else if y == b2 { if x != b { assert Next(bs, x) <= b; } }
      else { assert Next(bs, x) <= y; }
    }
  }

  lemma SplitTiled(bs: Blocks, first: int, end: int, b: int, n: int)
    requires Tiled(bs, first, end) && b in bs && b != end && b != first
    requires n >= MIN_BLOCK_SIZE && n % 8 == 0 && bs[b].size >= n + SIZEOF_BHDR
    ensures Next(bs, b) in bs
    ensures Tiled(Split(bs, b, n), first, end)
  {
    SplitNext(bs, first, end, b, n);
    SplitSized(bs, first, end, b, n);
    SplitOrdered(bs, first, end, b, n);
    SplitLinked(bs, first, end, b, n);
    hide Sized, Ordered, Forward, Backward, Ends;
  }

  lemma SplitLinked(bs: Blocks, first: int, end: int, b: int, n: int)
    requires Tiled(bs, first, end) && b in bs && b != end && b != first
    requires n >= MIN_BLOCK_SIZE && n % 8 == 0 && bs[b].size >= n + SIZEOF_BHDR
    ensures Forward(Split(bs, b, n), end) && Backward(Split(bs, b, n), first)
  {
    SplitNext(bs, first, end, b, n);
    var t := Split(bs, b, n);
    var b2, nb := b + BHDR_OVERHEAD + n, Next(bs, b);
    hide Sized, Ordered;
    forall x | x in t && x != end
      ensures Next(t, x) in t && Prev(t, Next(t, x)) == x
    {
      if x != b && x != b2 {
        assert Next(t, x) == Next(bs, x) && Next(bs, x) in bs;
      }
    }
    forall x | x in t && x != first
      ensures Prev(t, x) in t && Next(t, Prev(t, x)) == x
    {
      if x != nb && x != b2 { assert Prev(t, x) == Prev(bs, x); }
    }
  }

  /** What a merge changes: the merged block now reaches the block after its neighbour. */
  lemma AbsorbNext(bs: Blocks, first: int, end: int, b: int)
    requires Tiled(bs, first, end) && b in bs && b != end && Next(bs, b) != end
    ensures var n := Next(bs, b); var nn := Next(bs, n);
      n in bs && nn in bs && b < n < nn
    ensures var n, nn, t := Next(bs, b), Next(bs, Next(bs, b)), Absorb(bs, b);
      && Next(t, b) == nn
      && (forall a {:trigger Next(t, a)} :: a != b && a != n ==> Next(t, a) == Next(bs, a))
      && Prev(t, nn) == b
      && (forall a {:trigger Prev(t, a)} :: a != n && a != nn ==> Prev(t, a) == Prev(bs, a))
      && (forall a {:trigger a in t} :: a in t <==> a in bs && a != n)
  {
    assert Next(bs, b) in bs;
  }

  lemma AbsorbTiled(bs: Blocks, first: int, end: int, b: int)
    requires Tiled(bs, first, end) && b in bs && b != end && b != first && Next(bs, b) != end
    ensures Next(bs, b) in bs && Next(bs, Next(bs, b)) in bs
    ensures Tiled(Absorb(bs, b), first, end)
  {
    AbsorbNext(bs, first, end, b);
    var t := Absorb(bs, b);
    var n := Next(bs, b);
    var nn := Next(bs, n);
    assert Ends(t, first, end);
    assert Sized(t, first, end);
    assert Ordered(t) by {
      forall x, y | x in t && y in t && x < y
        ensures Next(t, x) <= y
      {
        assert Next(bs, x) <= y;
        if x == b { assert n < y; }
      }
    }
    assert Forward(t, end) by {
      forall x | x in t && x != end
        ensures Next(t, x) in t && Prev(t, Next(t, x)) == x
      {
        if x != b { assert Next(t, x) == Next(bs, x); assert Prev(bs, Next(bs, x)) == x; }
      }
    }
    assert Backward(t, first) by {
      forall x | x in t && x != first
        ensures Prev(t, x) in t && Next(t, Prev(t, x)) == x
      {
        if x != nn { assert Prev(t, x) == Prev(bs, x); assert Next(bs, Prev(bs, x)) == x; }
      }
    }
  }
}
