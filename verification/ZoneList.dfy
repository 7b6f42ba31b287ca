/** kernel/page.c on its own data: two linked lists of zones, changed in place. Each method does what the
    function of the same purpose in Zones says. */
module ZoneList {
  import opened Words
  import opened Zones

  const VM_PROT_ALL := 7

  class VmZone {
    var base: int
    var limit: int
    var protect: int
    var next: VmZone?

    constructor (base: int, limit: int, protect: int)
      ensures Fields() == Zone(base, limit, protect) && next == null
    {
      this.base, this.limit, this.protect, next := base, limit, protect, null;
    }

    ghost function Fields(): Zone
      reads this
    {
      Zone(base, limit, protect)
    }
  }

  ghost function At(ns: seq<VmZone>, i: int): VmZone? {
    if 0 <= i < |ns| then ns[i] else null
  }

  lemma AtIs(ns: seq<VmZone>, i: int)
    ensures At(ns, i) == null <==> !(0 <= i < |ns|)
    ensures 0 <= i < |ns| ==> At(ns, i) == ns[i]
  {
  }

  /** From head on, next leads through the nodes ns, which hold the zones zs. */
  ghost predicate Chain(head: VmZone?, ns: seq<VmZone>, zs: seq<Zone>)
    reads ns
  {
    |ns| == |zs| && head == At(ns, 0) &&
    forall i :: 0 <= i < |ns| ==> ns[i].Fields() == zs[i] && ns[i].next == At(ns, i + 1)
  }

  /** Zones in order have different nodes. */
  lemma Apart(head: VmZone?, ns: seq<VmZone>, zs: seq<Zone>, user: bool, i: nat, j: nat)
    requires Chain(head, ns, zs) && ListOk(zs, user) && i < |ns| && j < |ns| && ns[i] == ns[j]
    ensures i == j
  {
    assert ns[i].Fields() == zs[i] && ns[j].Fields() == zs[j];
  }

  /** The sum of base and limit does not wrap for zones in order. */
  lemma EndIsSum(zs: seq<Zone>, u: bool, i: nat)
    requires ListOk(zs, u) && i < |zs|
    ensures Add(zs[i].base, zs[i].limit) == zs[i].End()
  {
    AddIs(zs[i].base, zs[i].limit);
    hide Add;
  }

  /** The list without its first zone. */
  lemma ChainTail(head: VmZone?, ns: seq<VmZone>, zs: seq<Zone>)
    requires Chain(head, ns, zs) && ns != []
    ensures Chain(ns[0].next, ns[1..], zs[1..]) && Removed(zs, 0) == zs[1..]
  {
    forall i | 0 <= i < |ns| - 1
      ensures ns[1..][i].Fields() == zs[1..][i] && ns[1..][i].next == At(ns[1..], i + 1)
    {
      assert ns[1..][i] == ns[i + 1] && zs[1..][i] == zs[i + 1];
    }
  }

  lemma {:induction false} PlaceAt(zs: seq<Zone>, va: int, i: nat)
    requires i <= |zs| && (forall j :: 0 <= j < i ==> zs[j].base <= va) && (i < |zs| ==> va < zs[i].base)
    ensures Place(zs, va) == i
  {
    if i > 0 { PlaceAt(zs[1..], va, i - 1); }
  }

  lemma PageOffset(va: int)
    requires 0 <= va
    ensures And(va, PAGE_SIZE - 1) == 0 <==> Zones.Aligned(va)
  {
    hide And;
    assert Pow2(12) == 0x1000 by { Pow2Add(4, 8); Pow2Bytes(); assert Pow2(4) == 16; }
    hide Pow2;
    AndLow(va / 0x1000, va % 0x1000, 12);
  }

  class VmSpace {
    var km0: VmZone
    var kvmzone: VmZone?
    var uvmzone: VmZone?
    ghost var s: Space
    ghost var kern: seq<VmZone>
    ghost var user: seq<VmZone>

    /** The linked lists hold the zones of s. */
    ghost predicate Mirrored()
      reads this, kern, user
    {
      Chain(uvmzone, user, s.user) && Chain(kvmzone, kern, s.kern) && At(kern, 0) == km0
    }

    ghost predicate Valid()
      reads this, kern, user
    {
      Mirrored() && SpaceOk(s)
    }

    /** init_vmspace(brk). */
    constructor (brk: int)
      requires Zones.Aligned(brk) && USER_MAX_ADDR < brk <= KERN_MAX_ADDR
      ensures Valid() && s == Initial(brk)
    {
      var z := new VmZone(USER_MAX_ADDR, brk - USER_MAX_ADDR, VM_PROT_ALL);
      km0, kvmzone, uvmzone := z, z, null;
      s, kern, user := Initial(brk), [z], [];
      new;
      InitialOk(brk);
    }

    /** Where each of the operations starts. */
    method ListHead(u: bool) returns (head: VmZone?)
      requires Valid()
      ensures Valid() && Chain(head, Nodes(u), List(s, u)) && ListOk(List(s, u), u)
    {
      head := kvmzone;
      if u {
        head := uvmzone;
      }
    }

    ghost function Nodes(u: bool): seq<VmZone>
      reads this
    {
      if u then user else kern
    }

    /** The loop of page_alloc_in_addr: fails if a zone is in the way, else finds the neighbours. */
    static method PlaceFrom(head: VmZone?, va: int, size: int,
                            ghost ns: seq<VmZone>, ghost zs: seq<Zone>, ghost u: bool)
      returns (ok: bool, q: VmZone?, p: VmZone?)
      requires Chain(head, ns, zs) && ListOk(zs, u)
      ensures ok <==> Clear(zs, va, size)
      ensures ok ==> var i := Place(zs, va); p == At(ns, i) && q == At(ns, i - 1)
    {
      p, q := head, null;
      ghost var i: nat := 0;
      hide Add;
      while p != null
        invariant i <= |zs| && p == At(ns, i) && q == At(ns, i - 1)
        invariant forall j :: 0 <= j < i ==> zs[j].End() <= va
        decreases |zs| - i
      {
        assert ns[i].Fields() == zs[i] && zs[i] in zs;
        EndIsSum(zs, u, i);
        if va >= p.base && va < Add(p.base, p.limit) {
          assert zs[i].Holds(va);
          return false, q, p;
        }
        if va < p.base {
          if Add(va, size) > p.base {
            return false, q, p;
          }
          break;
        }
        q := p;
        p := p.next;
        i := i + 1;
      }
      ok := true;
      ClearFrom(zs, va, size, i, u);
      PlaceAt(zs, va, i);
    }

    /** The neighbours decide for the whole list. */
    static lemma ClearFrom(zs: seq<Zone>, va: int, size: int, i: nat, u: bool)
      requires ListOk(zs, u) && i <= |zs| && forall j :: 0 <= j < i ==> zs[j].End() <= va
      requires i < |zs| ==> va < zs[i].base && Add(va, size) <= zs[i].base
      ensures Clear(zs, va, size)
    {
      forall z | z in zs
        ensures !z.Holds(va) && (va < z.base ==> Add(va, size) <= z.base)
      {
        var j :| 0 <= j < |zs| && zs[j] == z;
        assert i < j ==> zs[i].End() <= zs[j].base;
      }
    }

    /** The loop of page_alloc: the first gap above the first zone. */
    method FindGap(u: bool, size: int) returns (va: int, q: VmZone?, p: VmZone?)
      requires Valid()
      ensures Valid() && |Nodes(u)| == |List(s, u)|
      ensures var (a, i) := FirstGap(List(s, u), size); va == a && p == At(Nodes(u), i) && q == At(Nodes(u), i - 1)
    {
      hide FirstGap, ListOk, SpaceOk, At;
      var head := ListHead(u);
      va, q, p := GapFrom(head, size, Nodes(u), List(s, u), u);
    }

    static method GapFrom(head: VmZone?, size: int, ghost ns: seq<VmZone>, ghost zs: seq<Zone>, ghost u: bool)
      returns (va: int, q: VmZone?, p: VmZone?)
      requires Chain(head, ns, zs) && ListOk(zs, u)
      ensures var (a, i) := FirstGap(zs, size); va == a && p == At(ns, i) && q == At(ns, i - 1)
    {
      p, q := head, null;
      hide Add, ListOk;
      if p == null {
        va := USER_MIN_ADDR;
      } else {
        assert ns[0].Fields() == zs[0];
        EndIsSum(zs, u, 0);
        va := Add(p.base, p.limit);
        q, p := p, p.next;
        ghost var i: nat := 1;
        while p != null
          invariant 1 <= i <= |zs| && p == At(ns, i) && q == At(ns, i - 1)
          invariant FirstGap(zs, size) == Gap(zs, i, va, size)
          decreases |zs| - i
        {
          assert ns[i].Fields() == zs[i];
          if Add(va, size) <= p.base { break; }
          EndIsSum(zs, u, i);
          va := Add(p.base, p.limit);
          q, p := p, p.next;
          i := i + 1;
        }
      }
    }

    /** x goes first: x->next = p. */
    static method PutFirst(x: VmZone, p: VmZone?, ghost ns: seq<VmZone>, ghost zs: seq<Zone>)
      requires Chain(p, ns, zs) && x !in ns
      modifies x
      ensures Chain(x, [x] + ns, [x.Fields()] + zs) && x.Fields() == old(x.Fields())
    {
      x.next := p;
      ghost var ns', zs' := [x] + ns, [x.Fields()] + zs;
      forall j | 0 <= j < |ns'|
        ensures ns'[j].Fields() == zs'[j] && ns'[j].next == At(ns', j + 1)
      {
        if j > 0 { assert ns'[j] == ns[j - 1] && zs'[j] == zs[j - 1] && At(ns', j + 1) == At(ns, j); }
      }
    }

    /** x goes after q: x->next = q->next and q->next = x. */
    static method PutAfter(x: VmZone, q: VmZone, ghost head: VmZone?,
                            ghost ns: seq<VmZone>, ghost zs: seq<Zone>, ghost i: nat)
      requires Chain(head, ns, zs) && x !in ns && 0 < i <= |ns| && q == ns[i - 1]
      requires forall j :: 0 <= j < |ns| && j != i - 1 ==> ns[j] != q
      modifies x, q
      ensures Chain(head, ns[..i] + [x] + ns[i..], Inserted(zs, i, x.Fields())) && x.Fields() == old(x.Fields())
    {
      x.next := q.next;
      q.next := x;
    }

    /** No node is in both lists. */
    lemma ListsApart(j: nat, k: nat)
      requires Valid() && j < |user| && k < |kern|
      ensures user[j] != kern[k]
    {
      assert user[j].Fields() == s.user[j] && kern[k].Fields() == s.kern[k];
    }

    /** No node of a list but the one at position i is its q, and none of the other list is. */
    lemma OnlyOne(u: bool, i: nat)
      requires Valid() && 0 < i <= |Nodes(u)|
      ensures forall j :: 0 <= j < |Nodes(u)| && j != i - 1 ==> Nodes(u)[j] != Nodes(u)[i - 1]
      ensures Nodes(u)[i - 1] !in Nodes(!u)
    {
      forall j | 0 <= j < |Nodes(u)| && Nodes(u)[j] == Nodes(u)[i - 1]
        ensures j == i - 1
      {
        Apart(At(Nodes(u), 0), Nodes(u), List(s, u), u, j, i - 1);
      }
      var q, others := Nodes(u)[i - 1], Nodes(!u);
      forall j | 0 <= j < |others|
        ensures others[j] != q
      {
        if u { ListsApart(i - 1, j); } else { ListsApart(j, i - 1); }
      }
    }

    /** x becomes the first zone of the user list. */
    method LinkFirst(x: VmZone, p: VmZone?)
      requires Mirrored() && x !in kern && x !in user && p == uvmzone
      modifies this`uvmzone, this`s, this`user, x
      ensures Mirrored() && s == old(s.(user := [x.Fields()] + s.user))
    {
      ghost var z := x.Fields();
      PutFirst(x, p, user, s.user);
      uvmzone := x;
      user := [x] + user;
      s := s.(user := [z] + s.user);
    }

    /** List u now consists of the nodes ns holding zs; the other list is as it was. */
    ghost method Note(u: bool, ns: seq<VmZone>, zs: seq<Zone>)
      requires Chain(if u then uvmzone else kvmzone, ns, zs) && (!u ==> At(ns, 0) == km0)
      requires u ==> Chain(kvmzone, kern, s.kern) && At(kern, 0) == km0
      requires !u ==> Chain(uvmzone, user, s.user)
      modifies this`s, this`kern, this`user
      ensures Mirrored() && s == With(old(s), u, zs)
      ensures Nodes(u) == ns && Nodes(!u) == old(Nodes(!u))
    {
      s := With(s, u, zs);
      if u { user := ns; } else { kern := ns; }
    }

    /** x follows q, the zone at position i - 1. */
    method LinkAfter(x: VmZone, q: VmZone, ghost u: bool, ghost i: nat)
      requires Valid() && x !in kern && x !in user && 0 < i <= |Nodes(u)| && q == Nodes(u)[i - 1]
      modifies this`s, this`kern, this`user, x, q
      ensures Mirrored() && s == With(old(s), u, Inserted(List(old(s), u), i, old(x.Fields())))
    {
      ghost var ns, zs := Nodes(u), List(s, u);
      OnlyOne(u, i);
      hide ListOk, Inserted;
      PutAfter(x, q, At(ns, 0), ns, zs, i);
      Note(u, ns[..i] + [x] + ns[i..], Inserted(zs, i, x.Fields()));
    }

    /** page_alloc_in_addr(va, npages, prot): the lists and the result are those of the function, and
        in order exactly if the call is sound. */
    method PageAllocInAddr(va: int, npages: int, prot: int) returns (r: int)
      requires Valid() && 0 <= va <= SIZE_MAX
      modifies this`uvmzone, this`s, this`kern, this`user, kern, user
      ensures Mirrored() && (s, r) == AllocatedInAddr(old(s), va, npages, prot)
      ensures Valid() <==> Sound(old(s), AllocInAddr(va, npages, prot))
    {
      AllocInAddrKeeps(s, va, npages, prot);
      var size := Size(npages);
      if npages <= 0 {
        return SIZE_MAX;
      }
      PageOffset(va);
      hide *;
      if And(va, PAGE_SIZE - 1) != 0 {
        NotPlaced(s, va, npages, prot);
        return SIZE_MAX;
      }
      if va < USER_MIN_ADDR || va >= KERN_MAX_ADDR || Add(va, size) > KERN_MAX_ADDR {
        NotPlaced(s, va, npages, prot);
        return SIZE_MAX;
      }
      if va < USER_MAX_ADDR && Add(va, size) > USER_MAX_ADDR {
        NotPlaced(s, va, npages, prot);
        return SIZE_MAX;
      }
      r := Take(va, npages, prot);
    }

    /** page_alloc_in_addr once its arguments have been checked. */
    method Take(va: int, npages: int, prot: int) returns (r: int)
      requires Valid() && npages > 0 && Zones.Aligned(va) && Guard(va, Size(npages))
      modifies this`uvmzone, this`s, this`kern, this`user, kern, user
      ensures Mirrored() && (s, r) == AllocatedInAddr(old(s), va, npages, prot)
    {
      ghost var u := va < USER_MAX_ADDR;
      hide Inserted, Clear, Zones.Aligned, Place, Size, Add;
      var head := ListHead(va < USER_MAX_ADDR);
      var ok, q, p := PlaceFrom(head, va, Size(npages), Nodes(u), List(s, u), u);
      if !ok {
        return SIZE_MAX;
      }
      if !u { Km0First(va, Size(npages)); }
      Insert(va, Size(npages), prot, q, p, u, Place(List(s, u), va));
      return va;
    }

    /** Nothing goes before km0. */
    lemma Km0First(va: int, size: int)
      requires Valid() && va >= USER_MAX_ADDR
      ensures Place(s.kern, va) > 0
    {
    }

    static lemma NotPlaced(s: Space, va: int, npages: int, prot: int)
      requires !Zones.Aligned(va) || !Guard(va, Size(npages))
      ensures AllocatedInAddr(s, va, npages, prot) == (s, SIZE_MAX)
    {
    }

    /** The zone both allocators make, and their common end. */
    method Insert(va: int, size: int, prot: int, q: VmZone?, p: VmZone?, ghost u: bool, ghost i: nat)
      requires Valid() && i <= |Nodes(u)| && q == At(Nodes(u), i - 1) && p == At(Nodes(u), i) && (!u ==> i > 0)
      modifies this`uvmzone, this`s, this`kern, this`user, kern, user
      ensures Mirrored() && s == With(old(s), u, Inserted(List(old(s), u), i, Zone(va, size, prot)))
    {
      var x := new VmZone(va, size, prot);
      if q == null {
        assert Inserted(s.user, 0, x.Fields()) == [x.Fields()] + s.user;
        LinkFirst(x, p);
      } else {
        LinkAfter(x, q, u, i);
      }
    }

    /** page_alloc(npages, prot, user): the lists and the result are those of the function, and in order
        exactly if the call is sound. */
    method PageAlloc(npages: int, prot: int, forUser: bool) returns (r: int)
      requires Valid()
      modifies this`uvmzone, this`s, this`kern, this`user, kern, user
      ensures Mirrored() && (s, r) == Allocated(old(s), npages, prot, forUser)
      ensures Valid() <==> Sound(old(s), Alloc(npages, prot, forUser))
    {
      AllocKeeps(s, npages, prot, forUser);
      var size := Size(npages);
      if npages <= 0 {
        return SIZE_MAX;
      }
      hide *;
      r := TakeGap(size, npages, prot, forUser);
    }

    /** page_alloc once its argument has been checked. */
    method TakeGap(size: int, ghost npages: int, prot: int, forUser: bool) returns (r: int)
      requires Valid() && npages > 0 && size == Size(npages)
      modifies this`uvmzone, this`s, this`kern, this`user, kern, user
      ensures Mirrored() && (s, r) == Allocated(old(s), npages, prot, forUser)
    {
      ghost var u := forUser;
      FirstGapAgrees(List(s, u), size, u);
      hide ListOk, Inserted, FirstGap, FirstTrueGap, Size, Add;
      var va, q, p := FindGap(forUser, size);
      if forUser {
        if va >= USER_MAX_ADDR || Add(va, size) > USER_MAX_ADDR {
          return SIZE_MAX;
        }
      } else {
        if va >= KERN_MAX_ADDR || Add(va, size) > KERN_MAX_ADDR {
          return SIZE_MAX;
        }
      }
      Insert(va, size, prot, q, p, u, FirstGap(List(s, u), size).1);
      return va;
    }

    /** page_prot(va): the protection of the zone holding va, or -1 as an unsigned 32-bit value. */
    method PageProt(va: int) returns (r: int)
      requires Valid()
      ensures r == Protection(s, va)
    {
      var head := ListHead(va < USER_MAX_ADDR);
      ghost var u := va < USER_MAX_ADDR;
      hide Holding, Chain, ListOk, SpaceOk, Nodes;
      r := ProtFrom(head, va, Nodes(u), List(s, u), u);
    }

    /** The loop of page_prot. */
    static method ProtFrom(head: VmZone?, va: int, ghost ns: seq<VmZone>, ghost zs: seq<Zone>, ghost u: bool)
      returns (r: int)
      requires Chain(head, ns, zs) && ListOk(zs, u)
      ensures var i := Holding(zs, va); r == if i < |zs| then zs[i].protect else SIZE_MAX
    {
      hide Holding, Add, ListOk;
      var p := head;
      ghost var i: nat := 0;
      assert zs[0..] == zs;
      while p != null
        invariant i <= |zs| && p == At(ns, i)
        invariant Holding(zs, va) == i + Holding(zs[i..], va)
        decreases |zs| - i
      {
        HoldingAt(zs, i, va);
        assert ns[i].Fields() == zs[i];
        EndIsSum(zs, u, i);
        if va >= p.base && va < Add(p.base, p.limit) {
          return p.protect;
        }
        p := p.next;
        i := i + 1;
      }
      return SIZE_MAX;
    }

    static lemma HoldingAt(zs: seq<Zone>, i: nat, va: int)
      requires i < |zs|
      ensures Holding(zs[i..], va) == if zs[i].Holds(va) then 0 else 1 + Holding(zs[i + 1..], va)
    {
      assert zs[i..][0] == zs[i] && zs[i..][1..] == zs[i + 1..];
    }

    /** The node before p leads past it: q->next = p->next. */
    static method CutAfter(q: VmZone, p: VmZone, ghost head: VmZone?,
                            ghost ns: seq<VmZone>, ghost zs: seq<Zone>, ghost i: nat)
      requires Chain(head, ns, zs) && 0 < i < |ns| && q == ns[i - 1] && p == ns[i]
      requires forall j :: 0 <= j < |ns| && j != i - 1 ==> ns[j] != q
      modifies q
      ensures Chain(head, ns[..i] + ns[i + 1..], Removed(zs, i))
    {
      q.next := p.next;
    }

    /** Only km0 starts at USER_MAX_ADDR, so another kernel zone is not the first. */
    lemma NotKm0(va: int, size: int)
      requires Valid() && va > USER_MAX_ADDR
      ensures Exact(s.kern, va, size) > 0
    {
    }

    /** The loop of page_free: the zone with exactly this range, and the one before it. */
    method FindExact(u: bool, va: int, size: int) returns (q: VmZone?, p: VmZone?)
      requires Valid()
      ensures Valid() && |Nodes(u)| == |List(s, u)|
      ensures var i := Exact(List(s, u), va, size); p == At(Nodes(u), i) && q == At(Nodes(u), i - 1)
    {
      hide ListOk, SpaceOk, Exact, At;
      var head := ListHead(u);
      q, p := ExactFrom(head, va, size, Nodes(u), List(s, u));
    }

    static method ExactFrom(head: VmZone?, va: int, size: int, ghost ns: seq<VmZone>, ghost zs: seq<Zone>)
      returns (q: VmZone?, p: VmZone?)
      requires Chain(head, ns, zs)
      ensures var i := Exact(zs, va, size); p == At(ns, i) && q == At(ns, i - 1)
    {
      p, q := head, null;
      ghost var i: nat := 0;
      assert zs[0..] == zs;
      while p != null
        invariant i <= |zs| && p == At(ns, i) && q == At(ns, i - 1)
        invariant Exact(zs, va, size) == i + Exact(zs[i..], va, size)
        decreases |zs| - i
      {
        assert ns[i].Fields() == zs[i] && zs[i..][0] == zs[i] && zs[i..][1..] == zs[i + 1..];
        if va == p.base && size == p.limit { break; }
        q := p;
        p := p.next;
        i := i + 1;
      }
    }

    /** page_free(va, npages). */
    method PageFree(va: int, npages: int) returns (r: int)
      requires Valid()
      modifies this`uvmzone, this`s, this`kern, this`user, kern, user
      ensures Valid() && (s, r) == Freed(old(s), va, npages)
    {
      FreeKeeps(s, va, npages);
      var size := Size(npages);
      if npages <= 0 {
        return -1;
      }
      if va == USER_MAX_ADDR {
        return -1;
      }
      hide SpaceOk, Exact, Size;
      r := Release(va, size);
    }

    /** page_free once its arguments have been checked. */
    method Release(va: int, size: int) returns (r: int)
      requires Valid() && va != USER_MAX_ADDR
      modifies this`uvmzone, this`s, this`kern, this`user, kern, user
      ensures Mirrored()
      ensures var u := va < USER_MAX_ADDR; var zs := old(List(s, u)); var i := Exact(zs, va, size);
        if i < |zs| then r == 0 && s == With(old(s), u, Removed(zs, i)) else r == -1 && s == old(s)
    {
      ghost var u := va < USER_MAX_ADDR;
      if va > USER_MAX_ADDR { NotKm0(va, size); }
      hide ListOk, SpaceOk, Removed, Exact, At, Chain, Nodes;
      var q, p := FindExact(va < USER_MAX_ADDR, va, size);
      ghost var i := Exact(List(s, u), va, size);
      AtIs(Nodes(u), i);
      r := -1;
      if p != null {
        Unlink(q, p, u, i);
        r := 0;
      }
    }

    /** p, at position i, leaves its list. */
    method Unlink(q: VmZone?, p: VmZone, ghost u: bool, ghost i: nat)
      requires Valid() && i < |Nodes(u)| && p == Nodes(u)[i] && q == At(Nodes(u), i - 1) && (!u ==> i > 0)
      modifies this`uvmzone, this`s, this`kern, this`user, kern, user
      ensures Mirrored() && s == With(old(s), u, Removed(List(old(s), u), i))
    {
      hide ListOk, SpaceOk, Removed, At;
      ghost var ns, zs := Nodes(u), List(s, u);
      AtIs(ns, i - 1);
      if q == null {
        UnlinkFirst(p);
      } else {
        OnlyOne(u, i);
        AtIs(ns, 0);
        AtIs(ns[..i] + ns[i + 1..], 0);
        CutAfter(q, p, At(ns, 0), ns, zs, i);
        Note(u, ns[..i] + ns[i + 1..], Removed(zs, i));
      }
    }

    /** The first zone of the user list leaves it: uvmzone = p->next. */
    method UnlinkFirst(p: VmZone)
      requires Mirrored() && user != [] && p == user[0]
      modifies this`uvmzone, this`s, this`kern, this`user
      ensures Mirrored() && s == old(s.(user := Removed(s.user, 0)))
    {
      ghost var ns, zs := user[1..], Removed(s.user, 0);
      ChainTail(uvmzone, user, s.user);
      hide Removed;
      uvmzone := p.next;
      Note(true, ns, zs);
    }
  }
}
