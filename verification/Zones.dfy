/** The virtual address zones of kernel/page.c as values: two lists of zones, and what the four
    operations do to them. */
module Zones {
  import opened Words

  const PAGE_SIZE := 0x1000
  const USER_MIN_ADDR := 0x0040_0000
  const USER_MAX_ADDR := 0xBFC0_0000
  const KERN_MAX_ADDR := 0xFFF0_0000
  const SIZE_MAX := WORD_MAX

  /** [base, base + limit) with its protection. */
  datatype Zone = Zone(base: int, limit: int, protect: int) {
    function End(): int { base + limit }

    predicate Holds(va: int) { base <= va < End() }
  }

  datatype Space = Space(user: seq<Zone>, kern: seq<Zone>)

  // ---------- the invariant ----------

  /** Sorted by address, pairwise disjoint and inside [lo, hi). */
  ghost predicate Sorted(zs: seq<Zone>, lo: int, hi: int) {
    (forall i :: 0 <= i < |zs| ==> lo <= zs[i].base < zs[i].End() <= hi) &&
    (forall i, j :: 0 <= i < j < |zs| ==> zs[i].End() <= zs[j].base)
  }

  predicate Aligned(x: int) {
    x % PAGE_SIZE == 0
  }

  ghost predicate Paged(zs: seq<Zone>) {
    forall i :: 0 <= i < |zs| ==> Aligned(zs[i].base) && Aligned(zs[i].End())
  }

  /** npages * PAGE_SIZE as an unsigned int. */
  function Size(npages: int): (r: int)
    ensures 0 <= r <= SIZE_MAX
  {
    npages * PAGE_SIZE % (WORD_MAX + 1)
  }

  /** The size is right up to 2^20 - 1 pages, and always a number of whole pages. */
  lemma SizeIs(npages: int)
    requires npages > 0
    ensures npages * PAGE_SIZE <= SIZE_MAX ==> Size(npages) == npages * PAGE_SIZE
    ensures Aligned(Size(npages))
  {
    var q := npages * PAGE_SIZE / (WORD_MAX + 1);
    assert Size(npages) == (npages - q * 0x10_0000) * PAGE_SIZE;
  }

  /** The user region and the kernel region. */
  function Lo(user: bool): int {
    if user then USER_MIN_ADDR else USER_MAX_ADDR
  }

  function Hi(user: bool): int {
    if user then USER_MAX_ADDR else KERN_MAX_ADDR
  }

  /** A list is in order and inside its region; km0 comes first in the kernel list. */
  ghost predicate ListOk(zs: seq<Zone>, user: bool) {
    Sorted(zs, Lo(user), Hi(user)) && Paged(zs) && (!user ==> zs != [] && zs[0].base == USER_MAX_ADDR)
  }

  ghost predicate SpaceOk(s: Space) {
    ListOk(s.user, true) && ListOk(s.kern, false)
  }

  // ---------- a range that no zone overlaps ----------

  predicate Overlaps(z: Zone, va: int, size: int) {
    va < z.End() && z.base < va + size
  }

  predicate Free(zs: seq<Zone>, va: int, size: int) {
    forall z :: z in zs ==> !Overlaps(z, va, size)
  }

  // ---------- the operations ----------

  function Inserted(zs: seq<Zone>, i: nat, z: Zone): seq<Zone>
    requires i <= |zs|
  {
    zs[..i] + [z] + zs[i..]
  }

  function Removed(zs: seq<Zone>, i: nat): seq<Zone>
    requires i < |zs|
  {
    zs[..i] + zs[i + 1..]
  }

  /** The first zone above va. */
  function Place(zs: seq<Zone>, va: int): (i: nat)
    ensures i <= |zs|
  {
    if zs == [] || va < zs[0].base then 0 else 1 + Place(zs[1..], va)
  }

  /** Where page_alloc starts to look. */
  function Start(zs: seq<Zone>): int {
    if zs == [] then USER_MIN_ADDR else zs[0].End()
  }

  /** From position i on, with va the end of the zone before: where the loop of page_alloc stops, its sums
      cut to 32 bits. */
  function Gap(zs: seq<Zone>, i: nat, va: int, size: int): (r: (int, nat))
    requires i <= |zs|
    ensures r.1 <= |zs|
    decreases |zs| - i
  {
    if i == |zs| || Add(va, size) <= zs[i].base then (va, i) else Gap(zs, i + 1, zs[i].End(), size)
  }

  function FirstGap(zs: seq<Zone>, size: int): (r: (int, nat))
    ensures r.1 <= |zs|
  {
    if zs == [] then (Start(zs), 0) else Gap(zs, 1, Start(zs), size)
  }

  /** The first gap that really has room: the same search without a limit to the sums. */
  function TrueGap(zs: seq<Zone>, i: nat, va: int, size: int): (r: (int, nat))
    requires i <= |zs|
    ensures r.1 <= |zs|
    decreases |zs| - i
  {
    if i == |zs| || va + size <= zs[i].base then (va, i) else TrueGap(zs, i + 1, zs[i].End(), size)
  }

  function FirstTrueGap(zs: seq<Zone>, size: int): (r: (int, nat))
    ensures r.1 <= |zs|
  {
    if zs == [] then (Start(zs), 0) else TrueGap(zs, 1, Start(zs), size)
  }

  /** The zone an address range names exactly. */
  function Exact(zs: seq<Zone>, va: int, size: int): (i: nat)
    ensures i <= |zs|
    ensures i < |zs| ==> zs[i].base == va && zs[i].limit == size
  {
    if zs == [] then 0 else if zs[0].base == va && zs[0].limit == size then 0 else 1 + Exact(zs[1..], va, size)
  }

  function Holding(zs: seq<Zone>, va: int): (i: nat)
    ensures i <= |zs|
    ensures i < |zs| ==> zs[i].Holds(va)
  {
    if zs == [] || zs[0].Holds(va) then 0 else 1 + Holding(zs[1..], va)
  }

  datatype Call =
    | AllocInAddr(va: int, npages: int, prot: int)
    | Alloc(npages: int, prot: int, user: bool)
    | PageFree(va: int, npages: int)

  function List(s: Space, user: bool): seq<Zone> {
    if user then s.user else s.kern
  }

  function With(s: Space, user: bool, zs: seq<Zone>): Space {
    if user then s.(user := zs) else s.(kern := zs)
  }

  predicate InRegion(va: int, size: int) {
    USER_MIN_ADDR <= va && va + size <= KERN_MAX_ADDR && (va < USER_MAX_ADDR ==> va + size <= USER_MAX_ADDR)
  }

  /** The same as the guards of page_alloc_in_addr test it. */
  predicate Guard(va: int, size: int) {
    USER_MIN_ADDR <= va < KERN_MAX_ADDR && Add(va, size) <= KERN_MAX_ADDR &&
    (va < USER_MAX_ADDR ==> Add(va, size) <= USER_MAX_ADDR)
  }

  /** A free range as the loop of page_alloc_in_addr tests it. */
  predicate Clear(zs: seq<Zone>, va: int, size: int) {
    forall z :: z in zs ==> !z.Holds(va) && (va < z.base ==> Add(va, size) <= z.base)
  }

  /** page_alloc_in_addr puts a zone where it is asked to, or fails and changes nothing. */
  function AllocatedInAddr(s: Space, va: int, npages: int, prot: int): (Space, int) {
    var size, user := Size(npages), va < USER_MAX_ADDR;
    var zs := List(s, user);
    if npages > 0 && Aligned(va) && Guard(va, size) && Clear(zs, va, size) then
      (With(s, user, Inserted(zs, Place(zs, va), Zone(va, size, prot))), va)
    else (s, SIZE_MAX)
  }

  /** page_alloc puts a zone into the first gap above the first zone. */
  function Allocated(s: Space, npages: int, prot: int, user: bool): (Space, int) {
    var size, zs := Size(npages), List(s, user);
    var (va, i) := FirstGap(zs, size);
    if npages > 0 && va < Hi(user) && Add(va, size) <= Hi(user) then
      (With(s, user, Inserted(zs, i, Zone(va, size, prot))), va)
    else (s, SIZE_MAX)
  }

  /** page_free takes back a range that was handed out exactly so; km0 stays. */
  function Freed(s: Space, va: int, npages: int): (Space, int) {
    var size, user := Size(npages), va < USER_MAX_ADDR;
    var zs := List(s, user);
    var i := Exact(zs, va, size);
    if npages > 0 && va != USER_MAX_ADDR && i < |zs| then (With(s, user, Removed(zs, i)), 0) else (s, -1)
  }

  function Do(s: Space, c: Call): (Space, int) {
    match c
    case AllocInAddr(va, npages, prot) => AllocatedInAddr(s, va, npages, prot)
    case Alloc(npages, prot, user) => Allocated(s, npages, prot, user)
    case PageFree(va, npages) => Freed(s, va, npages)
  }

  // ---------- every operation keeps both lists ----------

  lemma {:induction false} PlaceIs(zs: seq<Zone>, va: int)
    ensures var i := Place(zs, va);
      (forall j :: 0 <= j < i ==> zs[j].base <= va) && (i < |zs| ==> va < zs[i].base)
  {
    if zs != [] && zs[0].base <= va {
      PlaceIs(zs[1..], va);
      forall j | 0 <= j < Place(zs, va)
        ensures zs[j].base <= va
      {
        if j > 0 { assert zs[j] == zs[1..][j - 1]; }
      }
    }
  }

  lemma InsertedAt(zs: seq<Zone>, i: nat, z: Zone, j: nat)
    requires i <= |zs| && j <= |zs|
    ensures Inserted(zs, i, z)[j] == if j < i then zs[j] else if j == i then z else zs[j - 1]
  {
  }

  lemma RemovedAt(zs: seq<Zone>, i: nat, j: nat)
    requires i < |zs| && j < |zs| - 1
    ensures Removed(zs, i)[j] == if j < i then zs[j] else zs[j + 1]
  {
  }

  /** A zone put between its neighbours. */
  lemma InsertedSorted(zs: seq<Zone>, i: nat, z: Zone, lo: int, hi: int)
    requires Sorted(zs, lo, hi) && i <= |zs| && lo <= z.base < z.End() <= hi
    requires (i > 0 ==> zs[i - 1].End() <= z.base) && (i < |zs| ==> z.End() <= zs[i].base)
    ensures Sorted(Inserted(zs, i, z), lo, hi)
  {
    var r := Inserted(zs, i, z);
    forall j | 0 <= j < |r|
      ensures lo <= r[j].base < r[j].End() <= hi
    {
      InsertedAt(zs, i, z, j);
    }
    forall j, k | 0 <= j < k < |r|
      ensures r[j].End() <= r[k].base
    {
      InsertedAt(zs, i, z, j);
      InsertedAt(zs, i, z, k);
      hide Inserted;
      if k == i {
        assert j < i - 1 ==> zs[j].End() <= zs[i - 1].base;
      } else if j == i {
        assert i < k - 1 ==> zs[i].End() <= zs[k - 1].base;
      }
    }
  }

  lemma InsertedOk(zs: seq<Zone>, i: nat, z: Zone, user: bool)
    requires ListOk(zs, user) && i <= |zs| && Lo(user) <= z.base < z.End() <= Hi(user)
    requires (i > 0 ==> zs[i - 1].End() <= z.base) && (i < |zs| ==> z.End() <= zs[i].base)
    requires (!user ==> i > 0) && Aligned(z.base) && Aligned(z.End())
    ensures ListOk(Inserted(zs, i, z), user)
  {
    InsertedSorted(zs, i, z, Lo(user), Hi(user));
    var r := Inserted(zs, i, z);
    forall j | 0 <= j < |r|
      ensures Aligned(r[j].base) && Aligned(r[j].End())
    {
      InsertedAt(zs, i, z, j);
    }
  }

  lemma RemovedOk(zs: seq<Zone>, i: nat, user: bool)
    requires ListOk(zs, user) && i < |zs| && (!user ==> i > 0)
    ensures ListOk(Removed(zs, i), user)
  {
    var r := Removed(zs, i);
    forall j | 0 <= j < |r|
      ensures r[j] == if j < i then zs[j] else zs[j + 1]
    {
      RemovedAt(zs, i, j);
    }
  }

  lemma WithOk(s: Space, user: bool, zs: seq<Zone>)
    requires SpaceOk(s) && ListOk(zs, user)
    ensures SpaceOk(With(s, user, zs)) && ListOk(List(s, user), user)
  {
  }

  /** A zone that is empty or leaves its region. */
  lemma InsertedBad(s: Space, user: bool, i: nat, z: Zone)
    requires i <= |List(s, user)| && (z.limit <= 0 || z.End() > SIZE_MAX)
    ensures !SpaceOk(With(s, user, Inserted(List(s, user), i, z)))
  {
    InsertedAt(List(s, user), i, z, i);
    assert Inserted(List(s, user), i, z)[i].End() == z.End();
  }

  lemma AlignedSum(va: int, size: int)
    requires Aligned(va) && Aligned(size)
    ensures Aligned(va + size)
  {
  }

  /** A free range of whole pages, put where page_alloc_in_addr puts it. */
  lemma PlacedOk(zs: seq<Zone>, va: int, size: int, prot: int, user: bool)
    requires ListOk(zs, user) && size > 0 && Aligned(va) && Aligned(size) && Free(zs, va, size)
    requires Lo(user) <= va && va + size <= Hi(user)
    ensures ListOk(Inserted(zs, Place(zs, va), Zone(va, size, prot)), user)
  {
    var i := Place(zs, va);
    PlaceIs(zs, va);
    AlignedSum(va, size);
    hide Aligned;
    if i > 0 { assert zs[i - 1] in zs; }
    if i < |zs| { assert zs[i] in zs; }
    InsertedOk(zs, i, Zone(va, size, prot), user);
  }

  /** As long as va + size is a word, the guards test what they are meant to. */
  lemma GuardIsRegion(va: int, size: int)
    requires 0 <= va && 0 < size && va + size <= SIZE_MAX
    ensures Guard(va, size) <==> InRegion(va, size)
  {
    AddIs(va, size);
    hide Add;
  }

  /** And so does the loop. */
  lemma ClearIsFree(zs: seq<Zone>, va: int, size: int, user: bool)
    requires ListOk(zs, user) && 0 <= va && 0 < size && va + size <= SIZE_MAX
    ensures Clear(zs, va, size) <==> Free(zs, va, size)
  {
    AddIs(va, size);
    hide Add;
    forall z | z in zs
      ensures z.base < z.End()
    {
    }
  }

  /** Every range that does not end below 2^32 passes all the guards, and the loop as well unless a zone
      holds its first address. */
  lemma WrappingPasses(s: Space, va: int, npages: int, prot: int)
    requires SpaceOk(s) && npages > 0 && Aligned(va) && USER_MIN_ADDR <= va < KERN_MAX_ADDR
    requires va + Size(npages) > SIZE_MAX
    ensures AllocatedInAddr(s, va, npages, prot).1 ==
      if forall z :: z in List(s, va < USER_MAX_ADDR) ==> !z.Holds(va) then va else SIZE_MAX
  {
    AddIs(va, Size(npages));
    hide Add, Aligned;
  }

  /** page_alloc_in_addr keeps both lists in order exactly when it fails, or when the size is not cut to
      zero and the end of the range is a 32-bit address. */
  lemma AllocInAddrKeeps(s: Space, va: int, npages: int, prot: int)
    requires SpaceOk(s)
    ensures var (s', r) := AllocatedInAddr(s, va, npages, prot);
      SpaceOk(s') <==> r == SIZE_MAX || (Size(npages) > 0 && va + Size(npages) <= SIZE_MAX)
  {
    var size, user := Size(npages), va < USER_MAX_ADDR;
    var zs := List(s, user);
    if npages > 0 && Aligned(va) && Guard(va, size) && Clear(zs, va, size) {
      var z := Zone(va, size, prot);
      if size > 0 && va + size <= SIZE_MAX {
        GuardIsRegion(va, size);
        ClearIsFree(zs, va, size, user);
        SizeIs(npages);
        hide Size, Add, Aligned, Free, Clear;
        PlacedOk(zs, va, size, prot, user);
        WithOk(s, user, Inserted(zs, Place(zs, va), z));
      } else {
        hide Size, Add, Aligned, Free, Clear;
        InsertedBad(s, user, Place(zs, va), z);
      }
    }
  }

  /** The gap lies between its neighbours, and no lower address above the start is free. */
  lemma {:induction false} GapIs(zs: seq<Zone>, i: nat, va: int, size: int, lo: int, hi: int)
    requires Sorted(zs, lo, hi) && 0 < i <= |zs| && va == zs[i - 1].End() && size > 0
    ensures var (r, k) := TrueGap(zs, i, va, size);
      i <= k && r == zs[k - 1].End() && va <= r && (k < |zs| ==> r + size <= zs[k].base) &&
      forall w :: va <= w < r ==> !Free(zs, w, size)
    decreases |zs| - i
  {
    if i < |zs| && va + size > zs[i].base {
      GapIs(zs, i + 1, zs[i].End(), size, lo, hi);
      forall w | va <= w < zs[i].End()
        ensures !Free(zs, w, size)
      {
        assert zs[i] in zs && Overlaps(zs[i], w, size);
      }
    }
  }

  /** FirstTrueGap on a list in order. */
  lemma FirstGapIs(zs: seq<Zone>, size: int, user: bool)
    requires ListOk(zs, user) && size > 0
    ensures var (va, i) := FirstTrueGap(zs, size);
      Start(zs) <= va && Lo(user) <= va && Aligned(va) && (!user ==> i > 0) &&
      (i > 0 ==> va == zs[i - 1].End()) && (i < |zs| ==> va + size <= zs[i].base) &&
      forall w :: Start(zs) <= w < va ==> !Free(zs, w, size)
  {
    if zs != [] {
      GapIs(zs, 1, zs[0].End(), size, Lo(user), Hi(user));
    }
  }

  /** The search with 32-bit sums stops where there is room, or else somewhere where the sum wraps. */
  lemma {:induction false} GapAgrees(zs: seq<Zone>, i: nat, va: int, size: int, lo: int, hi: int)
    requires Sorted(zs, lo, hi) && 0 <= lo <= hi <= SIZE_MAX && 0 <= size <= SIZE_MAX
    requires 0 < i <= |zs| && va == zs[i - 1].End()
    ensures var (r, k) := Gap(zs, i, va, size); var t := TrueGap(zs, i, va, size);
      i <= k && r == zs[k - 1].End() && va <= r <= t.0 &&
      if t.0 + size <= SIZE_MAX then (r, k) == t else r + size > SIZE_MAX
    decreases |zs| - i
  {
    AddIs(va, size);
    hide Add;
    TrueGapAbove(zs, i, va, size, lo, hi);
    if i < |zs| && Add(va, size) > zs[i].base {
      GapAgrees(zs, i + 1, zs[i].End(), size, lo, hi);
    }
  }

  lemma {:induction false} TrueGapAbove(zs: seq<Zone>, i: nat, va: int, size: int, lo: int, hi: int)
    requires Sorted(zs, lo, hi) && 0 < i <= |zs| && va == zs[i - 1].End()
    ensures va <= TrueGap(zs, i, va, size).0
    decreases |zs| - i
  {
    if i < |zs| && va + size > zs[i].base {
      TrueGapAbove(zs, i + 1, zs[i].End(), size, lo, hi);
    }
  }

  /** The same for the whole list. */
  lemma FirstGapAgrees(zs: seq<Zone>, size: int, user: bool)
    requires ListOk(zs, user) && 0 <= size <= SIZE_MAX
    ensures var (va, i) := FirstGap(zs, size); var t := FirstTrueGap(zs, size);
      Lo(user) <= va <= Hi(user) && (!user ==> i > 0) && (i > 0 ==> va == zs[i - 1].End()) &&
      if t.0 + size <= SIZE_MAX then (va, i) == t else va + size > SIZE_MAX
  {
    if zs != [] { GapAgrees(zs, 1, zs[0].End(), size, Lo(user), Hi(user)); }
  }

  /** A zone put into the first gap with room. */
  lemma GapOk(zs: seq<Zone>, size: int, prot: int, user: bool)
    requires ListOk(zs, user) && size > 0 && Aligned(size) && FirstTrueGap(zs, size).0 + size <= Hi(user)
    ensures var (va, i) := FirstTrueGap(zs, size); ListOk(Inserted(zs, i, Zone(va, size, prot)), user)
  {
    FirstGapIs(zs, size, user);
    var (va, i) := FirstTrueGap(zs, size);
    AlignedSum(va, size);
    hide Aligned, FirstTrueGap;
    InsertedOk(zs, i, Zone(va, size, prot), user);
  }

  /** The first gap of the given size ends at a 32-bit address. */
  predicate HasEnd(zs: seq<Zone>, size: int) {
    FirstTrueGap(zs, size).0 + size <= SIZE_MAX
  }

  /** page_alloc keeps both lists in order exactly when it fails, or when the size is not cut to zero and
      the first gap with room for it ends at a 32-bit address. */
  lemma AllocKeeps(s: Space, npages: int, prot: int, user: bool)
    requires SpaceOk(s)
    ensures var (s', r) := Allocated(s, npages, prot, user);
      SpaceOk(s') <==> r == SIZE_MAX || (Size(npages) > 0 && HasEnd(List(s, user), Size(npages)))
  {
    var size, zs := Size(npages), List(s, user);
    var (va, i) := FirstGap(zs, size);
    FirstGapAgrees(zs, size, user);
    if npages > 0 && va < Hi(user) && Add(va, size) <= Hi(user) {
      var z := Zone(va, size, prot);
      if size > 0 && HasEnd(zs, size) {
        AddIs(va, size);
        SizeIs(npages);
        hide Size, Add, Aligned, FirstGap, FirstTrueGap;
        GapOk(zs, size, prot, user);
        WithOk(s, user, Inserted(zs, i, z));
      } else {
        hide Size, Add, Aligned, FirstGap, FirstTrueGap;
        InsertedBad(s, user, i, z);
      }
    }
  }

  lemma FreeKeeps(s: Space, va: int, npages: int)
    requires SpaceOk(s)
    ensures SpaceOk(Freed(s, va, npages).0)
  {
    var size, user := Size(npages), va < USER_MAX_ADDR;
    var zs := List(s, user);
    var i := Exact(zs, va, size);
    if npages > 0 && va != USER_MAX_ADDR && i < |zs| {
      RemovedOk(zs, i, user);
      WithOk(s, user, Removed(zs, i));
    }
  }

  // ---------- whole runs ----------

  /** init_vmspace(brk). */
  function Initial(brk: int): Space {
    Space([], [Zone(USER_MAX_ADDR, brk - USER_MAX_ADDR, 7)])
  }

  function Run(s: Space, cs: seq<Call>): Space
    decreases |cs|
  {
    if cs == [] then s else Run(Do(s, cs[0]).0, cs[1..])
  }

  /** The call fails, or what it hands out is not empty and ends at a 32-bit address. */
  predicate Sound(s: Space, c: Call) {
    match c
    case AllocInAddr(va, npages, prot) =>
      AllocatedInAddr(s, va, npages, prot).1 == SIZE_MAX || (Size(npages) > 0 && va + Size(npages) <= SIZE_MAX)
    case Alloc(npages, prot, user) =>
      Allocated(s, npages, prot, user).1 == SIZE_MAX || (Size(npages) > 0 && HasEnd(List(s, user), Size(npages)))
    case PageFree(_, _) => true
  }

  predicate AllSound(s: Space, cs: seq<Call>)
    decreases |cs|
  {
    cs != [] ==> Sound(s, cs[0]) && AllSound(Do(s, cs[0]).0, cs[1..])
  }

  /** Both lists are in order after every call of the run. */
  ghost predicate StaysOk(s: Space, cs: seq<Call>)
    decreases |cs|
  {
    SpaceOk(s) && (cs != [] ==> StaysOk(Do(s, cs[0]).0, cs[1..]))
  }

  lemma DoKeeps(s: Space, c: Call)
    requires SpaceOk(s)
    ensures SpaceOk(Do(s, c).0) <==> Sound(s, c)
  {
    match c {
      case AllocInAddr(va, npages, prot) => AllocInAddrKeeps(s, va, npages, prot);
      case Alloc(npages, prot, user) => AllocKeeps(s, npages, prot, user);
      case PageFree(va, npages) => FreeKeeps(s, va, npages);
    }
  }

  /** A sequence of calls keeps both lists sorted, disjoint, in whole pages and in their regions, with km0
      first, exactly as long as every call is sound. */
  lemma {:induction false} RunKeeps(s: Space, cs: seq<Call>)
    requires SpaceOk(s)
    ensures StaysOk(s, cs) <==> AllSound(s, cs)
    ensures AllSound(s, cs) ==> SpaceOk(Run(s, cs))
    decreases |cs|
  {
    if cs != [] {
      DoKeeps(s, cs[0]);
      hide SpaceOk, Do, Sound;
      if Sound(s, cs[0]) { RunKeeps(Do(s, cs[0]).0, cs[1..]); }
    }
  }

  /** A call is sound if its range would end at a 32-bit address wherever it may begin. */
  lemma ModestIsSound(s: Space, c: Call)
    requires SpaceOk(s)
    requires c.AllocInAddr? ==> c.va + c.npages * PAGE_SIZE <= SIZE_MAX
    requires c.Alloc? ==> Hi(c.user) + c.npages * PAGE_SIZE <= SIZE_MAX
    ensures Sound(s, c)
  {
    if !c.PageFree? && c.npages > 0 {
      SizeIs(c.npages);
      hide Size, Aligned, Inserted;
      if c.Alloc? { FirstGapBelow(List(s, c.user), Size(c.npages), c.user); }
    }
  }

  lemma {:induction false} TrueGapBelow(zs: seq<Zone>, i: nat, va: int, size: int, lo: int, hi: int)
    requires Sorted(zs, lo, hi) && i <= |zs| && va <= hi
    ensures TrueGap(zs, i, va, size).0 <= hi
    decreases |zs| - i
  {
    if i < |zs| && va + size > zs[i].base {
      TrueGapBelow(zs, i + 1, zs[i].End(), size, lo, hi);
    }
  }

  lemma FirstGapBelow(zs: seq<Zone>, size: int, user: bool)
    requires ListOk(zs, user)
    ensures FirstTrueGap(zs, size).0 <= Hi(user)
  {
    if zs != [] { TrueGapBelow(zs, 1, zs[0].End(), size, Lo(user), Hi(user)); }
  }

  lemma InitialOk(brk: int)
    requires Aligned(brk) && USER_MAX_ADDR < brk <= KERN_MAX_ADDR
    ensures SpaceOk(Initial(brk))
  {
  }

  // ---------- what the operations promise ----------

  /** A place page_alloc may hand out. */
  ghost predicate Fits(zs: seq<Zone>, va: int, size: int, user: bool) {
    (if zs == [] then USER_MIN_ADDR else zs[0].base + zs[0].limit) <= va &&
    va + size <= (if user then USER_MAX_ADDR else KERN_MAX_ADDR) && Free(zs, va, size)
  }

  /** page_alloc returned the lowest address at or above the end of the first zone whose range is free and
      within the limit, or it failed and there is none. */
  ghost predicate IsLowest(zs: seq<Zone>, va: int, size: int, user: bool) {
    if va == SIZE_MAX then forall w :: !Fits(zs, w, size, user)
    else Fits(zs, va, size, user) && forall w :: Fits(zs, w, size, user) ==> va <= w
  }

  lemma ListsOk(s: Space, user: bool)
    requires SpaceOk(s)
    ensures ListOk(List(s, user), user)
  {
  }

  lemma StartIs(zs: seq<Zone>)
    ensures Start(zs) == if zs == [] then USER_MIN_ADDR else zs[0].base + zs[0].limit
  {
  }

  /** This is so exactly when it fails, or when the first gap with room ends at a 32-bit address. */
  lemma AllocIsLowest(s: Space, npages: int, prot: int, user: bool)
    requires SpaceOk(s) && npages > 0
    ensures var r := Allocated(s, npages, prot, user).1; var zs, size := List(s, user), npages * PAGE_SIZE;
      IsLowest(zs, r, size, user) <==> r == SIZE_MAX || HasEnd(zs, size)
  {
    hide Size, Add, Aligned, FirstGap, FirstTrueGap, ListOk, SpaceOk, Free, Inserted, Start;
    var zs, size := List(s, user), npages * PAGE_SIZE;
    SizeIs(npages);
    ListsOk(s, user);
    FirstGapAgrees(zs, Size(npages), user);
    LowestGap(zs, size, user);
    AddIs(FirstGap(zs, Size(npages)).0, Size(npages));
    StartIs(zs);
  }

  /** The gap really is one, and the first. */
  lemma LowestGap(zs: seq<Zone>, size: int, user: bool)
    requires ListOk(zs, user) && size > 0
    ensures var va := FirstTrueGap(zs, size).0;
      0 < Start(zs) <= va && Free(zs, va, size) && forall w :: Start(zs) <= w < va ==> !Free(zs, w, size)
  {
    hide FirstTrueGap, Free;
    FirstGapIs(zs, size, user);
    var (va, i) := FirstTrueGap(zs, size);
    GapIsFree(zs, i, va, size, Lo(user), Hi(user));
  }

  lemma GapIsFree(zs: seq<Zone>, i: nat, va: int, size: int, lo: int, hi: int)
    requires Sorted(zs, lo, hi) && i <= |zs|
    requires (i > 0 ==> zs[i - 1].End() <= va) && (i < |zs| ==> va + size <= zs[i].base)
    ensures Free(zs, va, size)
  {
    forall z | z in zs
      ensures !Overlaps(z, va, size)
    {
      var j :| 0 <= j < |zs| && zs[j] == z;
      assert j < i - 1 ==> zs[j].End() <= zs[i - 1].base;
      assert i < j ==> zs[i].End() <= zs[j].base;
    }
  }

  /** The npages pages from va are inside one region and no zone of either list overlaps them. */
  predicate Available(s: Space, va: int, npages: int) {
    InRegion(va, npages * PAGE_SIZE) && Free(s.user, va, npages * PAGE_SIZE) && Free(s.kern, va, npages * PAGE_SIZE)
  }

  /** Zones of the other list are on the other side of the boundary. */
  lemma OtherListFree(s: Space, va: int, size: int)
    requires SpaceOk(s) && size > 0 && InRegion(va, size)
    ensures Free(List(s, va >= USER_MAX_ADDR), va, size)
  {
  }

  /** page_alloc_in_addr succeeds exactly when va is on a page boundary and the pages from there on are
      available: this is so exactly when it fails, or when the end of the range is a 32-bit address. */
  lemma GivenIsFree(s: Space, va: int, npages: int, prot: int)
    requires SpaceOk(s) && npages > 0 && 0 <= va
    ensures var r := AllocatedInAddr(s, va, npages, prot).1;
      (r == if Aligned(va) && Available(s, va, npages) then va else SIZE_MAX) <==>
        r == SIZE_MAX || va + npages * PAGE_SIZE <= SIZE_MAX
  {
    var size, user := npages * PAGE_SIZE, va < USER_MAX_ADDR;
    if va + size <= SIZE_MAX {
      SizeIs(npages);
      GuardIsRegion(va, size);
      ClearIsFree(List(s, user), va, size, user);
      if InRegion(va, size) { OtherListFree(s, va, size); }
      hide Size, Add, Aligned, Free, Clear, Inserted;
    }
  }

  /** 4 MB at an address 2 MB below the end of the address space: handed out, beyond KERN_MAX_ADDR. */
  lemma InAddrLeavesRegion(s: Space, prot: int)
    requires s == Initial(0xC000_0000)
    ensures SpaceOk(s) && AllocatedInAddr(s, 0xFFE0_0000, 0x400, prot).1 == 0xFFE0_0000
    ensures !SpaceOk(AllocatedInAddr(s, 0xFFE0_0000, 0x400, prot).0)
  {
    InitialOk(0xC000_0000);
    WrappingPasses(s, 0xFFE0_0000, 0x400, prot);
    AllocInAddrKeeps(s, 0xFFE0_0000, 0x400, prot);
  }

  /** 0xF_FC00 pages from an empty user list: their end is 2^32, cut to zero, and they are handed out. */
  lemma AllocLeavesRegion(s: Space, prot: int)
    requires s == Initial(0xC000_0000)
    ensures SpaceOk(s) && Allocated(s, 0xF_FC00, prot, true).1 == USER_MIN_ADDR
    ensures !SpaceOk(Allocated(s, 0xF_FC00, prot, true).0)
  {
    InitialOk(0xC000_0000);
    AllocKeeps(s, 0xF_FC00, prot, true);
  }

  lemma {:induction false} ExactFirst(zs: seq<Zone>, i: nat)
    requires i < |zs| && forall j :: 0 <= j < i ==> zs[j].base != zs[i].base
    ensures Exact(zs, zs[i].base, zs[i].limit) == i
  {
    if i > 0 {
      assert zs[0].base != zs[i].base;
      forall j | 0 <= j < i - 1
        ensures zs[1..][j].base != zs[1..][i - 1].base
      {
        assert zs[1..][j] == zs[j + 1];
      }
      ExactFirst(zs[1..], i - 1);
    }
  }

  lemma InsertRemove(zs: seq<Zone>, i: nat, z: Zone)
    requires i <= |zs| && forall j :: 0 <= j < i ==> zs[j].base != z.base
    ensures Exact(Inserted(zs, i, z), z.base, z.limit) == i && Removed(Inserted(zs, i, z), i) == zs
  {
    var r := Inserted(zs, i, z);
    InsertedAt(zs, i, z, i);
    forall j | 0 <= j < i
      ensures r[j].base != z.base
    {
      InsertedAt(zs, i, z, j);
    }
    ExactFirst(r, i);
  }

  /** Freeing what was just allocated gives the space back as it was. */
  lemma InsertThenFree(s: Space, user: bool, i: nat, z: Zone, npages: int)
    requires i <= |List(s, user)| && forall j :: 0 <= j < i ==> List(s, user)[j].base != z.base
    requires z.limit == Size(npages) && npages > 0 && z.base != USER_MAX_ADDR
    requires user <==> z.base < USER_MAX_ADDR
    ensures Freed(With(s, user, Inserted(List(s, user), i, z)), z.base, npages) == (s, 0)
  {
    InsertRemove(List(s, user), i, z);
    hide Inserted, Removed, Exact, Size;
  }

  lemma {:induction false} ExactNone(zs: seq<Zone>, va: int, size: int)
    ensures Exact(zs, va, size) == |zs| <==> forall z :: z in zs ==> z.base != va || z.limit != size
  {
    if zs != [] && !(zs[0].base == va && zs[0].limit == size) {
      ExactNone(zs[1..], va, size);
      assert zs == [zs[0]] + zs[1..];
    }
  }

  /** page_free succeeds exactly on a range that is one whole zone other than km0, its size cut to 32 bits;
      it takes away that zone and no other, and the size is right unless the one asked for is 2^32 or more. */
  lemma FreeIsExact(s: Space, va: int, npages: int)
    requires SpaceOk(s) && npages > 0
    ensures var (s', r) := Freed(s, va, npages);
      var u, size := va < USER_MAX_ADDR, Size(npages);
      (r == 0 <==> va != USER_MAX_ADDR && exists z :: z in List(s, u) && z.base == va && z.limit == size) &&
      (r != 0 ==> s' == s) && List(s', !u) == List(s, !u) &&
      (r == 0 ==> forall z :: z in List(s', u) <==> z in List(s, u) && z.base != va) &&
      (size == npages * PAGE_SIZE <==> npages * PAGE_SIZE <= SIZE_MAX)
  {
    SizeIs(npages);
    var u, size := va < USER_MAX_ADDR, Size(npages);
    hide Size;
    var zs := List(s, u);
    var i := Exact(zs, va, size);
    ExactNone(zs, va, size);
    if i < |zs| && va != USER_MAX_ADDR {
      assert zs[i] in zs;
      RemovedMembers(zs, i, u);
    }
  }

  lemma RemovedMembers(zs: seq<Zone>, i: nat, user: bool)
    requires ListOk(zs, user) && i < |zs|
    ensures forall z :: z in Removed(zs, i) <==> z in zs && z.base != zs[i].base
  {
    var r := Removed(zs, i);
    forall j | 0 <= j < |r|
      ensures r[j] in zs && r[j].base != zs[i].base
    {
      RemovedAt(zs, i, j);
    }
    forall z | z in zs && z.base != zs[i].base
      ensures z in r
    {
      var j :| 0 <= j < |zs| && zs[j] == z;
      if j < i { RemovedAt(zs, i, j); assert r[j] == z; } else { RemovedAt(zs, i, j - 1); assert r[j - 1] == z; }
    }
  }

  lemma AllocThenFree(s: Space, npages: int, prot: int, user: bool)
    requires SpaceOk(s)
    ensures var (s', va) := Allocated(s, npages, prot, user);
      va != SIZE_MAX ==> Freed(s', va, npages) == (s, 0)
  {
    var (s', va) := Allocated(s, npages, prot, user);
    if va != SIZE_MAX {
      var zs := List(s, user);
      FirstGapAgrees(zs, Size(npages), user);
      var (r, i) := FirstGap(zs, Size(npages));
      forall j | 0 <= j < i
        ensures zs[j].base < r
      {
        assert j < i - 1 ==> zs[j].End() <= zs[i - 1].base;
      }
      assert !user ==> zs[0].base < r;
      hide ListOk, Inserted, FirstGap, Size, Add;
      InsertThenFree(s, user, i, Zone(va, Size(npages), prot), npages);
    }
  }

  lemma AllocInAddrThenFree(s: Space, va: int, npages: int, prot: int)
    requires SpaceOk(s) && AllocatedInAddr(s, va, npages, prot).1 != SIZE_MAX
    ensures Freed(AllocatedInAddr(s, va, npages, prot).0, va, npages) == (s, 0)
  {
    var user := va < USER_MAX_ADDR;
    var zs := List(s, user);
    PlaceIs(zs, va);
    forall j | 0 <= j < Place(zs, va)
      ensures zs[j].base != va
    {
      assert zs[j] in zs && !zs[j].Holds(va);
    }
    assert !user ==> s.kern[0] in s.kern && !s.kern[0].Holds(va);
    hide Inserted, Size, Add, Clear, Guard;
    InsertThenFree(s, user, Place(zs, va), Zone(va, Size(npages), prot), npages);
  }

  /** At most one zone holds an address, and page_prot's search finds it. */
  lemma {:induction false} HoldingIsUnique(zs: seq<Zone>, va: int, i: nat, lo: int, hi: int)
    requires Sorted(zs, lo, hi) && i < |zs| && zs[i].Holds(va)
    ensures Holding(zs, va) == i && forall j :: 0 <= j < |zs| && zs[j].Holds(va) ==> j == i
  {
    if i > 0 {
      assert zs[0].End() <= zs[i].base;
      HoldingIsUnique(zs[1..], va, i - 1, lo, hi);
    }
  }

  lemma {:induction false} HoldingNone(zs: seq<Zone>, va: int)
    ensures Holding(zs, va) == |zs| <==> forall z :: z in zs ==> !z.Holds(va)
  {
    if zs != [] && !zs[0].Holds(va) {
      HoldingNone(zs[1..], va);
      assert zs == [zs[0]] + zs[1..];
    }
  }

  // ---------- protections ----------

  /** What page_prot answers: the protection of the zone it finds, or -1 as a 32-bit value. */
  function Protection(s: Space, va: int): int {
    var zs := List(s, va < USER_MAX_ADDR);
    var i := Holding(zs, va);
    if i < |zs| then zs[i].protect else SIZE_MAX
  }

  predicate HeldIn(zs: seq<Zone>, va: int) {
    exists z :: z in zs && z.Holds(va)
  }

  predicate Held(s: Space, va: int) {
    HeldIn(s.user, va) || HeldIn(s.kern, va)
  }

  /** Each list holds addresses of its own region only. */
  lemma HeldInRegion(zs: seq<Zone>, user: bool, va: int)
    requires ListOk(zs, user) && HeldIn(zs, va)
    ensures Lo(user) <= va < Hi(user)
  {
  }

  lemma OwnList(s: Space, z: Zone, va: int)
    requires SpaceOk(s) && (z in s.user || z in s.kern) && z.Holds(va)
    ensures z in List(s, va < USER_MAX_ADDR)
  {
    if z in s.user { HeldInRegion(s.user, true, va); } else { HeldInRegion(s.kern, false, va); }
  }

  /** Whichever list the zone holding an address is in, page_prot answers with its protection; when no zone
      holds it, with -1. */
  lemma ProtectionIs(s: Space, va: int)
    requires SpaceOk(s)
    ensures forall z :: (z in s.user || z in s.kern) && z.Holds(va) ==> Protection(s, va) == z.protect
    ensures !Held(s, va) ==> Protection(s, va) == SIZE_MAX
  {
    var u := va < USER_MAX_ADDR;
    HoldingNone(List(s, u), va);
    hide Holding;
    forall z | (z in s.user || z in s.kern) && z.Holds(va)
      ensures Protection(s, va) == z.protect
    {
      OwnList(s, z, va);
      var j :| 0 <= j < |List(s, u)| && List(s, u)[j] == z;
      HoldingIsUnique(List(s, u), va, j, Lo(u), Hi(u));
    }
  }

  /** What is in a list after a zone was put in. */
  lemma InsertedMembers(zs: seq<Zone>, i: nat, z: Zone)
    requires i <= |zs|
    ensures forall x :: x in Inserted(zs, i, z) <==> x == z || x in zs
  {
    var r := Inserted(zs, i, z);
    assert r[i] == z;
    forall j | 0 <= j < |zs|
      ensures zs[j] in r
    {
      InsertedAt(zs, i, z, if j < i then j else j + 1);
    }
  }

  /** A zone more: its range gets its protection, and every other address keeps what it had. */
  lemma InsertedProtects(s: Space, user: bool, i: nat, z: Zone, va: int)
    requires SpaceOk(s) && i <= |List(s, user)|
    requires SpaceOk(With(s, user, Inserted(List(s, user), i, z)))
    ensures var s' := With(s, user, Inserted(List(s, user), i, z));
      && Held(s', va) == (z.Holds(va) || Held(s, va))
      && Protection(s', va) == if z.Holds(va) then z.protect else Protection(s, va)
  {
    var s' := With(s, user, Inserted(List(s, user), i, z));
    InsertedMembers(List(s, user), i, z);
    ProtectionIs(s, va);
    ProtectionIs(s', va);
    hide Inserted, Holding, SpaceOk, Protection;
    assert forall x :: (x in s'.user || x in s'.kern) <==> x == z || x in s.user || x in s.kern;
    if Held(s, va) {
      var x :| (x in s.user || x in s.kern) && x.Holds(va);
      assert x in s'.user || x in s'.kern;
    }
  }

  /** The arguments of a successful allocation, and the zone it makes. */
  lemma AllocInserts(s: Space, c: Call) returns (i: nat)
    requires SpaceOk(s) && !c.PageFree? && Do(s, c).1 != SIZE_MAX
    ensures var (s', r) := Do(s, c); var user := r < USER_MAX_ADDR;
      i <= |List(s, user)| && s' == With(s, user, Inserted(List(s, user), i, Zone(r, Size(c.npages), c.prot)))
    ensures c.Alloc? ==> (c.user <==> Do(s, c).1 < USER_MAX_ADDR)
  {
    var user := if c.AllocInAddr? then c.va < USER_MAX_ADDR else c.user;
    hide Inserted, Size, Add, Clear;
    if c.Alloc? {
      FirstGapAgrees(List(s, user), Size(c.npages), user);
      i := FirstGap(List(s, user), Size(c.npages)).1;
    } else {
      i := Place(List(s, user), c.va);
    }
  }

  /** After a successful allocation page_prot answers with the protection it was called with for every
      address of the new range, and as before for every other address. */
  lemma AllocProtects(s: Space, c: Call, va: int)
    requires SpaceOk(s) && !c.PageFree? && Sound(s, c) && Do(s, c).1 != SIZE_MAX
    ensures var (s', r) := Do(s, c);
      if r <= va < r + Size(c.npages) then
        Held(s', va) && !Held(s, va) && Protection(s', va) == c.prot
      else
        (Held(s', va) <==> Held(s, va)) && Protection(s', va) == Protection(s, va)
  {
    DoKeeps(s, c);
    var i := AllocInserts(s, c);
    var (s', r) := Do(s, c);
    var user, z := r < USER_MAX_ADDR, Zone(r, Size(c.npages), c.prot);
    hide Do, Sound, Size, Inserted, Protection, Held, SpaceOk;
    InsertedProtects(s, user, i, z, va);
    if z.Holds(va) { InsertedWasFree(s, user, i, z, va); }
  }

  lemma InsertedApart(zs: seq<Zone>, i: nat, z: Zone, lo: int, hi: int, va: int)
    requires i <= |zs| && Sorted(Inserted(zs, i, z), lo, hi) && z.Holds(va)
    ensures !HeldIn(zs, va)
  {
    var r := Inserted(zs, i, z);
    InsertedAt(zs, i, z, i);
    forall j | 0 <= j < |zs|
      ensures !zs[j].Holds(va)
    {
      var k := if j < i then j else j + 1;
      assert r[k] == zs[j];
    }
  }

  /** No zone held an address of the new range. */
  lemma InsertedWasFree(s: Space, user: bool, i: nat, z: Zone, va: int)
    requires SpaceOk(s) && i <= |List(s, user)| && z.Holds(va)
    requires SpaceOk(With(s, user, Inserted(List(s, user), i, z)))
    ensures !Held(s, va)
  {
    var zs := List(s, user);
    InsertedMembers(zs, i, z);
    InsertedApart(zs, i, z, Lo(user), Hi(user), va);
    assert HeldIn(Inserted(zs, i, z), va) && ListOk(Inserted(zs, i, z), user);
    hide Inserted, ListOk, HeldIn;
    HeldInRegion(Inserted(zs, i, z), user, va);
    if HeldIn(s.user, va) { HeldInRegion(s.user, true, va); }
    if HeldIn(s.kern, va) { HeldInRegion(s.kern, false, va); }
  }

  /** A zone less: its range is no longer held, and every other address keeps what it had. */
  lemma RemovedProtects(s: Space, s': Space, z: Zone, user: bool, va: int)
    requires SpaceOk(s) && SpaceOk(s') && z in List(s, user)
    requires forall x :: (x in s'.user || x in s'.kern) <==> (x in s.user || x in s.kern) && x != z
    ensures Held(s', va) == (!z.Holds(va) && Held(s, va))
    ensures Protection(s', va) == if z.Holds(va) then SIZE_MAX else Protection(s, va)
  {
    ProtectionIs(s, va);
    ProtectionIs(s', va);
    OnlyHolder(s, user, z, va);
    hide SpaceOk, Protection;
    if Held(s, va) && !z.Holds(va) {
      var x :| (x in s.user || x in s.kern) && x.Holds(va);
      assert x in s'.user || x in s'.kern;
    }
  }

  /** The zone a successful release takes away. */
  lemma FreeRemoves(s: Space, va: int, npages: int) returns (z: Zone)
    requires SpaceOk(s) && npages > 0 && Freed(s, va, npages).1 == 0
    ensures var s' := Freed(s, va, npages).0;
      && z in List(s, va < USER_MAX_ADDR) && z.base == va && z.limit == Size(npages)
      && forall x :: (x in s'.user || x in s'.kern) <==> (x in s.user || x in s.kern) && x != z
  {
    FreeIsExact(s, va, npages);
    var (s', r) := Freed(s, va, npages);
    var user := va < USER_MAX_ADDR;
    hide Freed, Size;
    z :| z in List(s, user) && z.base == va && z.limit == Size(npages);
    ApartLists(s, user, z);
    forall x | x in List(s, user) && x.base == va
      ensures x == z
    {
      SameBase(s, user, x, z);
    }
  }

  lemma ApartLists(s: Space, user: bool, z: Zone)
    requires SpaceOk(s) && z in List(s, user)
    ensures z !in List(s, !user)
  {
  }

  /** After a successful release no address of the range is held, and every other one is as before. */
  lemma FreeUnprotects(s: Space, va: int, npages: int, w: int)
    requires SpaceOk(s) && npages > 0 && Freed(s, va, npages).1 == 0
    ensures var s' := Freed(s, va, npages).0;
      if va <= w < va + Size(npages) then
        Held(s, w) && !Held(s', w) && Protection(s', w) == SIZE_MAX
      else
        (Held(s', w) <==> Held(s, w)) && Protection(s', w) == Protection(s, w)
  {
    FreeKeeps(s, va, npages);
    var z := FreeRemoves(s, va, npages);
    var s' := Freed(s, va, npages).0;
    hide Freed, Size, Protection, SpaceOk;
    RemovedProtects(s, s', z, va < USER_MAX_ADDR, w);
    if z.Holds(w) { assert HeldIn(List(s, va < USER_MAX_ADDR), w); }
  }

  lemma SameBase(s: Space, user: bool, x: Zone, z: Zone)
    requires SpaceOk(s) && x in List(s, user) && z in List(s, user) && x.base == z.base
    ensures x == z
  {
  }

  /** Nothing else holds what a zone holds. */
  lemma OnlyHolder(s: Space, user: bool, z: Zone, va: int)
    requires SpaceOk(s) && z in List(s, user)
    ensures z.Holds(va) ==> forall x :: (x in s.user || x in s.kern) && x.Holds(va) ==> x == z
  {
    if z.Holds(va) {
      assert HeldIn(List(s, user), va);
      HeldInRegion(List(s, user), user, va);
      forall x | (x in s.user || x in s.kern) && x.Holds(va)
        ensures x == z
      {
        OwnList(s, x, va);
      }
    }
  }

  // ---------- km0 ----------

  /** After init_vmspace(brk) exactly [USER_MAX_ADDR, brk) is held, with every access allowed. */
  lemma InitialHolds(brk: int, va: int)
    requires Aligned(brk) && USER_MAX_ADDR < brk <= KERN_MAX_ADDR
    ensures SpaceOk(Initial(brk))
    ensures Held(Initial(brk), va) <==> USER_MAX_ADDR <= va < brk
    ensures Protection(Initial(brk), va) == if USER_MAX_ADDR <= va < brk then 7 else SIZE_MAX
  {
    InitialOk(brk);
    ProtectionIs(Initial(brk), va);
    assert Initial(brk).kern[0] in Initial(brk).kern;
  }

  /** km0 is the first kernel zone, and covers the kernel image up to brk. */
  ghost predicate ImageHeld(s: Space, brk: int) {
    SpaceOk(s) && s.kern[0] == Zone(USER_MAX_ADDR, brk - USER_MAX_ADDR, 7)
  }

  lemma ImageIsHeld(s: Space, brk: int, va: int)
    requires ImageHeld(s, brk) && USER_MAX_ADDR <= va < brk
    ensures Held(s, va) && Protection(s, va) == 7
  {
    ProtectionIs(s, va);
    hide Protection;
    assert s.kern[0] in s.kern && s.kern[0].Holds(va);
  }

  lemma FirstStays(s: Space, s': Space)
    requires SpaceOk(s) && SpaceOk(s') && s.kern[0] in s'.kern
    ensures s'.kern[0] == s.kern[0]
  {
    SameBase(s', false, s.kern[0], s'.kern[0]);
  }

  lemma ImageStays(s: Space, c: Call, brk: int)
    requires ImageHeld(s, brk) && Sound(s, c)
    ensures ImageHeld(Do(s, c).0, brk)
  {
    DoKeeps(s, c);
    var s' := Do(s, c).0;
    assert s.kern[0] in s.kern;
    if c.PageFree? {
      if c.npages > 0 { FreeIsExact(s, c.va, c.npages); }
      assert s.kern[0] in s'.kern;
    } else if Do(s, c).1 != SIZE_MAX {
      var i := AllocInserts(s, c);
      var user, z := Do(s, c).1 < USER_MAX_ADDR, Zone(Do(s, c).1, Size(c.npages), c.prot);
      hide Do, Sound, Inserted, Size, SpaceOk;
      InsertedMembers(List(s, user), i, z);
    }
    hide Do, Sound, Inserted, Size, SpaceOk;
    FirstStays(s, s');
  }

  lemma {:induction false} ImageStaysOver(s: Space, cs: seq<Call>, brk: int)
    requires ImageHeld(s, brk) && AllSound(s, cs)
    ensures ImageHeld(Run(s, cs), brk)
    decreases |cs|
  {
    if cs != [] {
      ImageStays(s, cs[0], brk);
      ImageStaysOver(Do(s, cs[0]).0, cs[1..], brk);
    }
  }

  /** After every run of sound calls from init_vmspace(brk) the kernel image is held, with every access
      allowed, and an address handed out next in the kernel region is not below brk. */
  lemma NothingBelowBrk(brk: int, cs: seq<Call>, c: Call)
    requires Aligned(brk) && USER_MAX_ADDR < brk <= KERN_MAX_ADDR && AllSound(Initial(brk), cs)
    requires var s := Run(Initial(brk), cs); !c.PageFree? && Sound(s, c) && Do(s, c).1 != SIZE_MAX
    ensures var s := Run(Initial(brk), cs);
      && (forall va :: USER_MAX_ADDR <= va < brk ==> Held(s, va) && Protection(s, va) == 7)
      && (Do(s, c).1 < USER_MAX_ADDR || brk <= Do(s, c).1)
  {
    InitialOk(brk);
    ImageStaysOver(Initial(brk), cs, brk);
    var s := Run(Initial(brk), cs);
    forall va | USER_MAX_ADDR <= va < brk
      ensures Held(s, va) && Protection(s, va) == 7
    {
      ImageIsHeld(s, brk, va);
    }
    NotEmpty(s, c);
    hide Run, Do, Sound, Size, AllSound, Held, Protection;
    AllocProtects(s, c, Do(s, c).1);
  }

  lemma NotEmpty(s: Space, c: Call)
    requires !c.PageFree? && Sound(s, c) && Do(s, c).1 != SIZE_MAX
    ensures Size(c.npages) > 0
  {
  }
}
