/** The region lists of all address spaces as linked vm_object nodes: a private
    front for each space and one tail, from kernel_text_obj on, for all. */
module RegionList {
  import opened Common
  import opened RegionSpec

  class Region {
    const base: nat
    var length: nat
    const mmio: bool                 // VM_FLAG_MMIO
    var next: Region?
    ghost const owner: Vmm?          // the space it is private to, if any

    constructor (base: nat, length: nat, mmio: bool, next: Region?, ghost owner: Vmm?)
      ensures this.base == base && this.length == length && this.mmio == mmio && this.next == next
      ensures this.owner == owner
    {
      this.base, this.length, this.mmio, this.next, this.owner := base, length, mmio, next, owner;
    }
  }

  /** vmm_t; the head node is part of it. */
  class Vmm {
    var head: Region?

    constructor ()
      ensures head == null
    {
      head := null;
    }
  }

  ghost function Succ(list: seq<Region>, i: nat): Region? {
    if i + 1 < |list| then list[i + 1] else null
  }

  ghost predicate Linked(list: seq<Region>)
    reads list`next
  {
    && (forall i :: 0 <= i < |list| ==> list[i].next == Succ(list, i))
    && (forall i, j :: 0 <= i < j < |list| ==> list[i] != list[j])
  }

  ghost function Extents(list: seq<Region>): (es: seq<Extent>)
    reads list`length
    ensures |es| == |list|
    ensures forall i :: 0 <= i < |list| ==> es[i] == Extent(list[i].base, list[i].length)
  {
    if list == [] then [] else [Extent(list[0].base, list[0].length)] + Extents(list[1..])
  }

  /** What does not depend on links: p is the private front of v, the tail
      starts at the kernel text, and together they are sorted. */
  ghost predicate Shape(v: Vmm, p: seq<Region>, tail: seq<Region>)
    reads v`head
  {
    && p != [] && tail != []
    && p[0] == v.head && p[0].base == 0 && tail[0].base == KERNEL_TEXT_START
    && SortedBases(p + tail) && OwnedBy(p, v) && Shared(tail)
  }

  ghost predicate OwnedBy(p: seq<Region>, v: Vmm) {
    forall i :: 0 <= i < |p| ==> p[i].base < KERNEL_TEXT_START && p[i].owner == v
  }

  ghost predicate Shared(tail: seq<Region>) {
    forall i :: 0 <= i < |tail| ==> tail[i].owner == null
  }

  /** The list of space v is p followed by the shared tail. */
  ghost predicate SpaceOk(v: Vmm, p: seq<Region>, tail: seq<Region>)
    reads v`head, p`next, tail`next
  {
    Shape(v, p, tail) && Linked(p + tail)
  }

  /** The links of a list into which n was hooked behind element m. */
  ghost predicate HookedAt(list: seq<Region>, m: nat, n: Region)
    reads list`next, n`next
  {
    && m < |list| && list[m].next == n && n.next == Succ(list, m) && n !in list
    && (forall i :: 0 <= i < |list| && i != m ==> list[i].next == Succ(list, i))
    && (forall i, j :: 0 <= i < j < |list| ==> list[i] != list[j])
  }

  ghost predicate SortedBases(list: seq<Region>) {
    forall i, j :: 0 <= i < j < |list| ==> list[i].base <= list[j].base
  }

  lemma SortedExtents(list: seq<Region>)
    ensures SortedBases(list) <==> Sorted(Extents(list))
  {
    var es := Extents(list);
    if Sorted(es) {
      forall i, j | 0 <= i < j < |list|
        ensures list[i].base <= list[j].base
      {
        assert es[i].base <= es[j].base;
      }
    }
  }

  /** A node n was linked in behind element m. */
  lemma LinkedInsert(list: seq<Region>, m: nat, n: Region)
    requires HookedAt(list, m, n)
    ensures Linked(Insert(list, m + 1, n))
  {
    var l := Insert(list, m + 1, n);
    InsertElements(list, m + 1, n);
    forall i | 0 <= i < |l|
      ensures l[i].next == Succ(l, i)
    {
      assert l[i] == InsertedAt(list, m + 1, n, i);
      if i + 1 < |l| {
        assert l[i + 1] == InsertedAt(list, m + 1, n, i + 1);
      }
    }
    forall i, j | 0 <= i < j < |l|
      ensures l[i] != l[j]
    {
      assert l[i] == InsertedAt(list, m + 1, n, i) && l[j] == InsertedAt(list, m + 1, n, j);
    }
  }

  lemma SortedInsert(list: seq<Region>, m: nat, n: Region)
    requires m < |list| && SortedBases(list)
    requires list[m].base <= n.base && (m + 1 < |list| ==> n.base <= list[m + 1].base)
    ensures SortedBases(Insert(list, m + 1, n))
  {
    hide Sorted, Extents, SortedBases;
    SortedExtents(list);
    InsertExtents(list, m + 1, n);
    InsertSorted(Extents(list), m, Extent(n.base, n.length));
    SortedExtents(Insert(list, m + 1, n));
  }

  lemma InsertExtents(list: seq<Region>, k: nat, n: Region)
    requires k <= |list|
    ensures Extents(Insert(list, k, n)) == Insert(Extents(list), k, Extent(n.base, n.length))
  {
    hide Extents, Insert;
    InsertElements(list, k, n);
    InsertElements(Extents(list), k, Extent(n.base, n.length));
    var a, b := Extents(Insert(list, k, n)), Insert(Extents(list), k, Extent(n.base, n.length));
    forall i | 0 <= i < |a|
      ensures a[i] == b[i]
    {
      assert Insert(list, k, n)[i] == InsertedAt(list, k, n, i);
      assert b[i] == InsertedAt(Extents(list), k, Extent(n.base, n.length), i);
    }
  }

  lemma WithoutExtents(list: seq<Region>, m: nat)
    requires m < |list|
    ensures Extents(Without(list, m)) == Without(Extents(list), m)
  {
    hide Extents, Without;
    var l, es := Without(list, m), Extents(list);
    var a, b := Extents(l), Without(es, m);
    DeleteElements(list, m);
    DeleteElements(es, m);
    forall i | 0 <= i < |a|
      ensures a[i] == b[i]
    {
      var k := if i < m then i else i + 1;
      assert l[i] == list[k] && b[i] == es[k];
    }
  }

  /** The links of a list in which element m was passed over. */
  ghost predicate UnhookedAt(list: seq<Region>, m: nat)
    reads list`next
  {
    && 0 < m < |list| && list[m - 1].next == Succ(list, m)
    && (forall i :: 0 <= i < |list| && i != m - 1 ==> list[i].next == Succ(list, i))
    && (forall i, j :: 0 <= i < j < |list| ==> list[i] != list[j])
  }

  lemma LinkedDelete(list: seq<Region>, m: nat)
    requires UnhookedAt(list, m)
    ensures Linked(Without(list, m))
  {
    var l := Without(list, m);
    forall i | 0 <= i < |l|
      ensures l[i].next == Succ(l, i)
    {
      assert l[i] == list[if i < m then i else i + 1];
    }
  }

  /** A node hooked into the private front of v. */
  lemma SpaceInsertFront(v: Vmm, p: seq<Region>, tail: seq<Region>, m: nat, n: Region)
    requires Shape(v, p, tail) && m < |p| && HookedAt(p + tail, m, n)
    requires p[m].base <= n.base <= (p + tail)[m + 1].base && n.base < KERNEL_TEXT_START && n.owner == v
    ensures SpaceOk(v, Insert(p, m + 1, n), tail)
  {
    hide Linked, SortedBases, HookedAt, Shared;
    LinkedInsert(p + tail, m, n);
    SortedInsert(p + tail, m, n);
    InsertFront(p, tail, m + 1, n);
    InsertElements(p, m + 1, n);
    var q := Insert(p, m + 1, n);
    forall i | 0 <= i < |q|
      ensures q[i].base < KERNEL_TEXT_START && q[i].owner == v
    {
      assert q[i] == InsertedAt(p, m + 1, n, i);
    }
    assert q[0] == InsertedAt(p, m + 1, n, 0);
  }

  /** A node hooked into the tail, as seen from space v. */
  lemma SpaceInsertBack(v: Vmm, p: seq<Region>, tail: seq<Region>, m: nat, n: Region)
    requires Shape(v, p, tail) && m < |tail| && HookedAt(p + tail, |p| + m, n)
    requires tail[m].base <= n.base && (m + 1 < |tail| ==> n.base <= tail[m + 1].base) && n.owner == null
    ensures SpaceOk(v, p, Insert(tail, m + 1, n))
  {
    hide Linked, SortedBases, HookedAt, OwnedBy;
    LinkedInsert(p + tail, |p| + m, n);
    SortedInsert(p + tail, |p| + m, n);
    InsertBack(p, tail, m + 1, n);
    InsertElements(tail, m + 1, n);
    var q := Insert(tail, m + 1, n);
    forall i | 0 <= i < |q|
      ensures q[i].owner == null
    {
      assert q[i] == InsertedAt(tail, m + 1, n, i);
    }
    assert q[0] == InsertedAt(tail, m + 1, n, 0);
  }

  lemma SpaceDeleteFront(v: Vmm, p: seq<Region>, tail: seq<Region>, m: nat)
    requires Shape(v, p, tail) && 0 < m < |p| && UnhookedAt(p + tail, m)
    ensures SpaceOk(v, Without(p, m), tail)
  {
    hide Linked, UnhookedAt, Shared;
    LinkedDelete(p + tail, m);
    SortedDelete(p + tail, m);
    DeleteFront(p, tail, m);
    DeleteElements(p, m);
  }

  lemma SpaceDeleteBack(v: Vmm, p: seq<Region>, tail: seq<Region>, m: nat)
    requires Shape(v, p, tail) && 0 < m < |tail| && UnhookedAt(p + tail, |p| + m)
    ensures SpaceOk(v, p, Without(tail, m))
  {
    hide Linked, UnhookedAt, OwnedBy;
    LinkedDelete(p + tail, |p| + m);
    SortedDelete(p + tail, |p| + m);
    DeleteBack(p, tail, m);
    DeleteElements(tail, m);
  }

  lemma SortedDelete(list: seq<Region>, m: nat)
    requires m < |list| && SortedBases(list)
    ensures SortedBases(Without(list, m))
  {
    hide Sorted, Extents, SortedBases, Without;
    SortedExtents(list);
    WithoutExtents(list, m);
    DeleteKeeps(Extents(list), m);
    SortedExtents(Without(list, m));
  }

  lemma DeleteElements<T>(s: seq<T>, m: nat)
    requires m < |s|
    ensures |Without(s, m)| == |s| - 1
    ensures forall i :: 0 <= i < m ==> Without(s, m)[i] == s[i]
    ensures forall i :: m <= i < |s| - 1 ==> Without(s, m)[i] == s[i + 1]
  {
  }

  class Spaces {
    const kernelText: Region
    var current: Vmm
    ghost var priv: map<Vmm, seq<Region>>
    ghost var tail: seq<Region>

    static ghost function ObjectsOf(priv: map<Vmm, seq<Region>>, tail: seq<Region>): set<Region> {
      (set v, i | v in priv && 0 <= i < |priv[v]| :: priv[v][i]) + (set i | 0 <= i < |tail| :: tail[i])
    }

    ghost function Objects(): set<Region>
      reads this`priv, this`tail
    {
      ObjectsOf(priv, tail)
    }

    /** The list of the current space, as the kernel walks it. */
    ghost function Current(): seq<Region>
      requires current in priv
      reads this`current, this`priv, this`tail
    {
      priv[current] + tail
    }

    ghost predicate Valid()
      reads this, priv.Keys, Objects()`next
    {
      && current in priv
      && tail != [] && tail[0] == kernelText
      && forall v :: v in priv ==> SpaceOk(v, priv[v], tail)
    }

    static ghost predicate DisjointIn(p: map<Vmm, seq<Region>>, t: seq<Region>)
      reads ObjectsOf(p, t)`length
    {
      forall v :: v in p ==> Disjoint(Extents(p[v]) + Extents(t))
    }

    /** The list of every space is in order and without overlap. */
    ghost predicate AllDisjoint()
      reads this`priv, this`tail, Objects()`length
    {
      DisjointIn(priv, tail)
    }

    /** The zones ahead of the two bump pointers hold no kernel region. */
    static ghost predicate ClearZones(t: seq<Region>, mmio: nat, stacks: nat)
      reads t`length
    {
      && Clear(Extents(t), mmio, KERNEL_PMM_START)
      && Clear(Extents(t), KERNEL_HEAP_START + PAGE_SIZE, stacks)
    }

    static predicate OutsideZones(base: nat, length: nat, mmio: nat, stacks: nat) {
      && (base + length <= mmio || KERNEL_PMM_START <= base)
      && (base + length <= KERNEL_HEAP_START + PAGE_SIZE || stacks <= base)
    }

    /** The region has no address in either zone. */
    static lemma OutsideIff(base: nat, length: nat, mmio: nat, stacks: nat)
      requires length > 0 && mmio < KERNEL_PMM_START && KERNEL_HEAP_START + PAGE_SIZE < stacks
      ensures OutsideZones(base, length, mmio, stacks) <==>
        forall a: nat :: InZone(a, mmio, stacks) ==> !(base <= a < base + length)
    {
      if !OutsideZones(base, length, mmio, stacks) {
        var lo := if base + length <= mmio || KERNEL_PMM_START <= base then KERNEL_HEAP_START + PAGE_SIZE else mmio;
        var a := if base < lo then lo else base;
        assert InZone(a, mmio, stacks) && base <= a < base + length;
      }
    }

    static predicate InZone(a: nat, mmio: nat, stacks: nat) {
      mmio <= a < KERNEL_PMM_START || KERNEL_HEAP_START + PAGE_SIZE <= a < stacks
    }

    /** All lists are disjoint, and both zones are clear. */
    ghost predicate Placed(mmio: nat, stacks: nat)
      reads this`priv, this`tail, Objects()`length
    {
      AllDisjoint() && ClearZones(tail, mmio, stacks)
    }

    /** The static regions and `vmm_init`. */
    constructor (kernelBytes: nat)
      ensures Valid() && Extents(tail) == KernelExtents(kernelBytes)
      ensures priv.Keys == {current} && |priv[current]| == 1 && priv[current][0].length == 0
      ensures !priv[current][0].mmio && OnlyVgaIsMmio(tail)
      ensures kernelBytes <= VGA_TEXT_BUFFER_BASE - KERNEL_TEXT_START ==>
        Placed(VGA_TEXT_BUFFER_BASE + PAGE_SIZE, KERNEL_STACK_START)
    {
      hide Extents, SpaceOk, ObjectsOf, DisjointIn, ClearZones, OnlyVgaIsMmio, KernelList, KernelExtents;
      var text;
      ghost var regions;
      text, regions := KernelRegions(kernelBytes);
      var vmm := new Vmm();
      var head := new Region(0, 0, false, text, vmm);
      vmm.head := head;
      kernelText, current := text, vmm;
      tail := regions;
      priv := map[vmm := [head]];
      new;
      KernelSpace(vmm, head, regions, kernelBytes);
      if kernelBytes <= VGA_TEXT_BUFFER_BASE - KERNEL_TEXT_START {
        StartPlaced(vmm, head, regions, kernelBytes);
      }
    }

    /** The static vm_objects. */
    static method KernelRegions(kernelBytes: nat) returns (text: Region, ghost t: seq<Region>)
      ensures KernelList(t, kernelBytes) && t[0] == text && forall i :: 0 <= i < |t| ==> fresh(t[i])
    {
      var tbls := new Region(KERNEL_PAGE_TBL_START, 0x6000, false, null, null);
      var pmm := new Region(KERNEL_PMM_START, 0x1000, false, tbls, null);
      var vga := new Region(VGA_TEXT_BUFFER_BASE, 0x1000, true, pmm, null);
      text := new Region(KERNEL_TEXT_START, kernelBytes, false, vga, null);
      t := [text, vga, pmm, tbls];
    }

    static ghost predicate KernelList(t: seq<Region>, kernelBytes: nat)
      reads t`next, t`length
    {
      && |t| == 4 && (forall i :: 0 <= i < 4 ==> t[i].next == Succ(t, i) && t[i].owner == null)
      && t[0].base == KERNEL_TEXT_START && t[1].base == VGA_TEXT_BUFFER_BASE && t[2].base == KERNEL_PMM_START
      && t[3].base == KERNEL_PAGE_TBL_START
      && t[0].length == kernelBytes && t[1].length == 0x1000 && t[2].length == 0x1000 && t[3].length == 0x6000
      && !t[0].mmio && t[1].mmio && !t[2].mmio && !t[3].mmio
    }

    /** Of the kernel regions only the VGA buffer has the MMIO flag. */
    static ghost predicate OnlyVgaIsMmio(t: seq<Region>) {
      forall i :: 0 <= i < |t| ==> (t[i].mmio <==> t[i].base == VGA_TEXT_BUFFER_BASE)
    }

    static lemma StartPlaced(vmm: Vmm, head: Region, t: seq<Region>, kernelBytes: nat)
      requires kernelBytes <= VGA_TEXT_BUFFER_BASE - KERNEL_TEXT_START
      requires head.base == 0 && head.length == 0 && Extents(t) == KernelExtents(kernelBytes)
      ensures DisjointIn(map[vmm := [head]], t) && ClearZones(t, VGA_TEXT_BUFFER_BASE + PAGE_SIZE, KERNEL_STACK_START)
    {
      hide Extents, Disjoint, Clear, KernelExtents;
      ExtentsOne(head);
      KernelPlaced(kernelBytes);
    }

    static lemma ExtentsOne(r: Region)
      ensures Extents([r]) == [Extent(r.base, r.length)]
    {
    }

    static lemma KernelPlaced(kernelBytes: nat)
      requires kernelBytes <= VGA_TEXT_BUFFER_BASE - KERNEL_TEXT_START
      ensures Disjoint([Extent(0, 0)] + KernelExtents(kernelBytes))
      ensures Clear(KernelExtents(kernelBytes), VGA_TEXT_BUFFER_BASE + PAGE_SIZE, KERNEL_PMM_START)
      ensures Clear(KernelExtents(kernelBytes), KERNEL_HEAP_START + PAGE_SIZE, KERNEL_STACK_START)
    {
      assert [Extent(0, 0)] + KernelExtents(kernelBytes) ==
        [Extent(0, 0), Extent(KERNEL_TEXT_START, kernelBytes), Extent(VGA_TEXT_BUFFER_BASE, 0x1000),
         Extent(KERNEL_PMM_START, 0x1000), Extent(KERNEL_PAGE_TBL_START, 0x6000)];
    }

    static lemma KernelSpace(vmm: Vmm, head: Region, t: seq<Region>, kernelBytes: nat)
      requires KernelList(t, kernelBytes) && head !in t
      requires vmm.head == head && head.base == 0 && head.owner == vmm && head.next == t[0]
      ensures SpaceOk(vmm, [head], t) && OnlyVgaIsMmio(t)
      ensures Extents(t) == KernelExtents(kernelBytes)
    {
      hide Extents;
      var list := [head] + t;
      assert list == [head, t[0], t[1], t[2], t[3]];
      assert Linked(list);
      assert SortedBases(list);
    }

    /** Every listed region is one of the objects, and fronts do not share. */
    lemma Members()
      requires Valid()
      ensures forall v, i :: v in priv && 0 <= i < |priv[v]| ==> priv[v][i] in Objects()
      ensures forall i :: 0 <= i < |tail| ==> tail[i] in Objects()
    {
    }

    /** What the links are before a node is hooked in. */
    static lemma LinkedFacts(v: Vmm, p: seq<Region>, tail: seq<Region>)
      requires SpaceOk(v, p, tail)
      ensures Shape(v, p, tail)
      ensures var list := p + tail;
        && (forall i :: 0 <= i < |list| ==> list[i].next == Succ(list, i))
        && (forall i, j :: 0 <= i < j < |list| ==> list[i] != list[j])
    {
    }

    static lemma Hooked(list: seq<Region>, m: nat, n: Region)
      requires m < |list| && list[m].next == n && n.next == Succ(list, m) && n !in list
      requires forall i :: 0 <= i < |list| && i != m ==> list[i].next == Succ(list, i)
      requires forall i, j :: 0 <= i < j < |list| ==> list[i] != list[j]
      ensures HookedAt(list, m, n)
    {
    }

    /** A region of the private front is in no other list. */
    lemma FrontApart(node: Region)
      requires Valid() && node in priv[current]
      ensures forall w :: w in priv && w != current ==> node !in priv[w]
      ensures node !in tail
    {
      assert SpaceOk(current, priv[current], tail);
      forall w | w in priv && w != current
        ensures node !in priv[w]
      {
        assert SpaceOk(w, priv[w], tail);
      }
    }

    /** Hooks n into the private front of the current space. */
    method HookFront(node: Region, ghost k: nat, n: Region)
      requires Valid() && k < |priv[current]| && node == priv[current][k]
      requires n !in Objects() && n.next == node.next && n.owner == current
      requires node.base <= n.base <= Current()[k + 1].base && n.base < KERNEL_TEXT_START
      modifies this`priv, node`next
      ensures Valid() && priv == old(priv)[current := Insert(old(priv)[current], k + 1, n)]
    {
      hide Shape, HookedAt, Insert, Linked;
      ghost var p, t, v := priv, tail, current;
      Members();
      FrontApart(node);
      assert SpaceOk(v, p[v], t);
      LinkedFacts(v, p[v], t);
      ghost var list := p[v] + t;
      assert list[k] == node && n !in list;
      assert forall i :: 0 <= i < |list| && i != k ==> list[i] != node;
      node.next := n;
      Hooked(list, k, n);
      SpaceInsertFront(v, p[v], t, k, n);
      assert forall w :: w in p && w != v ==> SpaceOk(w, p[w], t);
      priv := p[v := Insert(p[v], k + 1, n)];
    }

    /** The links of a list except those of element m. */
    static ghost predicate RestLinked(list: seq<Region>, m: nat)
      reads Others(list, m)`next
    {
      && (forall i :: 0 <= i < |list| && i != m ==> list[i] in Others(list, m) && list[i].next == Succ(list, i))
      && (forall i, j :: 0 <= i < j < |list| ==> list[i] != list[j])
    }

    static ghost function Others(list: seq<Region>, m: nat): set<Region> {
      set i | 0 <= i < |list| && i != m :: list[i]
    }

    static lemma RestFrom(v: Vmm, p: seq<Region>, tail: seq<Region>, m: nat)
      requires SpaceOk(v, p, tail) && m < |p + tail|
      ensures Shape(v, p, tail) && RestLinked(p + tail, m)
      ensures (p + tail)[m] !in Others(p + tail, m) && (p + tail)[m].next == Succ(p + tail, m)
    {
    }

    static lemma RestHooked(list: seq<Region>, m: nat, n: Region)
      requires m < |list| && RestLinked(list, m) && list[m].next == n && n.next == Succ(list, m) && n !in list
      ensures HookedAt(list, m, n)
    {
    }

    static lemma TailSucc(p: seq<Region>, tail: seq<Region>, m: nat)
      requires m < |tail|
      ensures (p + tail)[|p| + m] == tail[m] && Succ(p + tail, |p| + m) == Succ(tail, m)
    {
    }

    /** Hooks n into the shared tail. */
    method HookBack(node: Region, ghost m: nat, n: Region)
      requires Valid() && m < |tail| && node == tail[m]
      requires n !in Objects() && n.next == node.next && n.owner == null
      requires node.base <= n.base && (m + 1 < |tail| ==> n.base <= tail[m + 1].base)
      modifies this`tail, node`next
      ensures Valid() && tail == Insert(old(tail), m + 1, n)
    {
      hide SpaceOk, Shape, HookedAt, RestLinked, Others, Succ, ObjectsOf;
      ghost var p, t := priv, tail;
      Members();
      forall w | w in p
        ensures Shape(w, p[w], t) && RestLinked(p[w] + t, |p[w]| + m) && node !in Others(p[w] + t, |p[w]| + m)
        ensures n.next == Succ(p[w] + t, |p[w]| + m) && n !in p[w] + t
      {
        RestFrom(w, p[w], t, |p[w]| + m);
        TailSucc(p[w], t, m);
      }
      node.next := n;
      tail := Insert(t, m + 1, n);
      assert forall w :: w in p ==> RestLinked(p[w] + t, |p[w]| + m);
      forall w | w in priv
        ensures SpaceOk(w, priv[w], tail)
      {
        TailSucc(p[w], t, m);
        RestHooked(p[w] + t, |p[w]| + m, n);
        SpaceInsertBack(w, p[w], t, m, n);
      }
      assert tail[0] == t[0];
    }

    // ------------------------------------------------------------- vmm_alloc

    /** The result of inserting n behind element k of the current list: the
        private front changes for a region below the kernel, the tail that all
        spaces share for one above. */
    static ghost predicate Added(p: map<Vmm, seq<Region>>, t: seq<Region>, p': map<Vmm, seq<Region>>,
                                 t': seq<Region>, v: Vmm, k: nat, n: Region)
      requires v in p
    {
      if n.base < KERNEL_TEXT_START
      then k < |p[v]| && t' == t && p' == p[v := Insert(p[v], k + 1, n)]
      else |p[v]| <= k < |p[v]| + |t| && p' == p && t' == Insert(t, k - |p[v]| + 1, n)
    }

    /** The list that results in the current space. */
    static lemma AddedCurrent(p: map<Vmm, seq<Region>>, t: seq<Region>, p': map<Vmm, seq<Region>>,
                              t': seq<Region>, v: Vmm, k: nat, n: Region)
      requires v in p && Added(p, t, p', t', v, k, n)
      ensures v in p' && k < |p[v] + t| && p'[v] + t' == Insert(p[v] + t, k + 1, n)
      ensures Extents(p'[v] + t') == Insert(Extents(p[v] + t), k + 1, Extent(n.base, n.length))
    {
      hide Extents;
      if n.base < KERNEL_TEXT_START {
        InsertFront(p[v], t, k + 1, n);
      } else {
        InsertBack(p[v], t, k - |p[v]| + 1, n);
      }
      InsertExtents(p[v] + t, k + 1, n);
    }

    /** Which part of the list of a space an element belongs to. */
    static lemma SplitAt(v: Vmm, p: seq<Region>, tail: seq<Region>, k: nat)
      requires Shape(v, p, tail) && k < |p + tail|
      ensures k < |p| ==> (p + tail)[k].base < KERNEL_TEXT_START && k + 1 < |p + tail|
                          && (p + tail)[k + 1].base <= KERNEL_TEXT_START
      ensures k >= |p| ==> (p + tail)[k].base >= KERNEL_TEXT_START
      ensures (p + tail)[0] == v.head && (p + tail)[0].base == 0
    {
      hide Shared;
      var list := p + tail;
      assert list[|p|] == tail[0];
      if k < |p| {
        assert list[k] == p[k];
        assert k + 1 < |p| ==> list[k + 1] == p[k + 1];
      } else if k > |p| {
        assert list[|p|].base <= list[k].base;
      }
    }

    lemma CurrentSplit(k: nat)
      requires Valid() && k < |Current()|
      ensures k < |priv[current]| ==> Current()[k].base < KERNEL_TEXT_START && k + 1 < |Current()|
                                      && Current()[k + 1].base <= KERNEL_TEXT_START
      ensures k >= |priv[current]| ==> Current()[k].base >= KERNEL_TEXT_START
      ensures Current()[0] == current.head && Current()[0].base == 0
      ensures Current()[k].next == Succ(Current(), k)
      ensures Sorted(Extents(Current()))
    {
      hide Shape, Sorted, Extents, SortedBases, Succ, ObjectsOf;
      assert SpaceOk(current, priv[current], tail);
      SplitAt(current, priv[current], tail, k);
      ShapeSorted(current, priv[current], tail);
      SortedExtents(Current());
    }

    static lemma ShapeSorted(v: Vmm, p: seq<Region>, tail: seq<Region>)
      requires Shape(v, p, tail)
      ensures SortedBases(p + tail)
    {
    }

    /** The end of `vmm_alloc`: a new node behind element k of the list. */
    method InsertAfter(node: Region, ghost k: nat, base: nat, length: nat, mmio: bool) returns (n: Region)
      requires Valid() && k < |Current()| && node == Current()[k]
      requires node.base <= base && (k + 1 < |Current()| ==> base <= Current()[k + 1].base)
      requires k < |priv[current]| ==> base < KERNEL_TEXT_START
      modifies this`priv, this`tail, node`next
      ensures Valid() && fresh(n) && n.base == base && n.length == length && n.mmio == mmio
      ensures Added(old(priv), old(tail), priv, tail, current, k, n)
    {
      hide SpaceOk, Extents, Sorted, Insert, Succ;
      Members();
      CurrentSplit(k);
      n := new Region(base, length, mmio, node.next, if k < |priv[current]| then current else null);
      // Both branches perform the same store; they differ in the ghost lists.
      if base < KERNEL_TEXT_START {
        HookFront(node, k, n);
      } else {
        HookBack(node, k - |priv[current]|, n);
      }
    }

    /** `vmm_alloc` with an explicit address: None is the NULL of the test that
        finds the start inside a region. */
    method AllocAt(start: nat, length: nat, mmio: bool) returns (r: Option<nat>, ghost k: nat, ghost n: Region?)
      requires Valid()
      modifies this`priv, this`tail, Objects()`next
      ensures Valid()
      ensures var es := old(Extents(Current()));
        && StopsAt(es, start, k)
        && if Rejected(es, k, start, length) then r == None && priv == old(priv) && tail == old(tail)
           else r == Some(start) && n != null && fresh(n) && n.base == start && n.length == length && n.mmio == mmio
                && Added(old(priv), old(tail), priv, tail, current, k, n)
    {
      hide SpaceOk, Extents, ObjectsOf, Added, Sorted;
      ghost var list := Current();
      ghost var es := Extents(list);
      k, n := 0, null;
      CurrentSplit(0);
      Members();
      var node := current.head;
      while node.next != null
        modifies {}
        invariant node != null && k < |list| && node == list[k]
        invariant forall i :: 0 <= i < k ==> !(es[i].base <= start < es[i + 1].base)
        decreases |list| - k
      {
        CurrentSplit(k);
        if node.base <= start < node.next.base {
          if start < node.base + node.length && start + length < node.next.base {
            return None, k, null;
          }
          break;
        }
        node := node.next;
        k := k + 1;
      }
      CurrentSplit(k);
      ExplicitSorted(es, start, length, k);
      assert list[k].base <= start by { assert es[k].base <= start; }
      assert k + 1 < |list| ==> es[k + 1].base > start;
      assert node in Objects();
      n := InsertAfter(node, k, start, length, mmio);
      return Some(start), k, n;
    }

    /** `vmm_alloc` with address 0: None when there is no large enough gap. */
    method AllocAnywhere(length: nat, mmio: bool) returns (r: Option<nat>, ghost k: nat, ghost n: Region?)
      requires Valid()
      modifies this`priv, this`tail, Objects()`next
      ensures Valid()
      ensures var es := old(Extents(Current()));
        if r == None then NoGap(es, length) && priv == old(priv) && tail == old(tail)
        else
          && FirstGap(es, length, k) && r == Some(es[k].End())
          && n != null && fresh(n) && n.base == r.value && n.length == length && n.mmio == mmio
          && Added(old(priv), old(tail), priv, tail, current, k, n)
    {
      hide SpaceOk, Extents, ObjectsOf, Added, Sorted;
      ghost var list := Current();
      ghost var es := Extents(list);
      k, n := 0, null;
      CurrentSplit(0);
      Members();
      var node := current.head;
      r := None;
      while node.next != null
        modifies {}
        invariant node != null && k < |list| && node == list[k] && r == None
        invariant forall i :: 0 <= i < k ==> !GapAfter(es, i, length)
        decreases |list| - k
      {
        CurrentSplit(k);
        var base := node.base + node.length;
        if base + length < node.next.base {
          r := Some(base);
          break;
        }
        node := node.next;
        k := k + 1;
      }
      CurrentSplit(k);
      if r == None {
        return None, k, null;
      }
      assert GapAfter(es, k, length);
      assert node in Objects();
      n := InsertAfter(node, k, r.value, length, mmio);
    }

    /** `vmm_alloc`, without the mapping of pages. */
    method VmmAlloc(startRegion: nat, bytes: nat, mmio: bool) returns (r: Option<nat>, ghost k: nat, ghost n: Region?)
      requires Valid()
      modifies this`priv, this`tail, Objects()`next
      ensures Valid()
      ensures var es, start, length := old(Extents(Current())), PageAlignDown(startRegion), PageAlign(bytes);
        && Searched(es, start, length, k, r)
        && (start != 0 ==> (r == None <==> Refuses(es, start, length)))
        && (r == None ==> priv == old(priv) && tail == old(tail))
        && (r.Some? ==> n != null && fresh(n) && n.base == r.value && n.length == length && n.mmio == mmio
                        && Added(old(priv), old(tail), priv, tail, current, k, n))
        && (start == 0 && es[0].length == 0 && (forall i :: 0 < i < |es| ==> es[i].length > 0) ==>
              (r == Some(0) <==> length < es[1].base))
        && (old(AllDisjoint()) ==> (AllDisjoint() <==> r == None || start == 0 || InGap(es, start, length)))
      ensures forall mmio: nat, stacks: nat ::
        (r == None || r.value < KERNEL_TEXT_START || OutsideZones(r.value, PageAlign(bytes), mmio, stacks)) &&
        old(Placed(mmio, stacks)) && AllDisjoint() ==>
        Placed(mmio, stacks)
    {
      hide SpaceOk, StopsAt, Rejected, FirstGap, NoGap, Added, Extents, Disjoint, Clear, InGap, OutsideZones, PageAlign, PageAlignDown, Refuses, Sorted;
      ghost var p, t := priv, tail;
      ghost var es := Extents(Current());
      CurrentHead();
      var length := PageAlign(bytes);
      var start := PageAlignDown(startRegion);
      if start == 0 {
        r, k, n := AllocAnywhere(length, mmio);
        if r == None {
          NoGapAtHead(es, length);
        }
      } else {
        CurrentSorted();
        r, k, n := AllocAt(start, length, mmio);
        RefusedIff(es, start, length, k);
      }
      if r.Some? {
        AllocDisjoint(p, t, priv, tail, current, k, n, start, length, es);
        AllocClear(p, t, priv, tail, current, k, n);
      }
    }

    static lemma NoGapAtHead(es: seq<Extent>, length: nat)
      requires |es| >= 2 && es[0].base == 0 && NoGap(es, length)
      ensures es[0].length == 0 ==> es[1].base <= length
    {
      assert !GapAfter(es, 0, length);
    }

    lemma CurrentSorted()
      requires Valid()
      ensures Sorted(Extents(Current()))
    {
      hide Extents, Sorted;
      CurrentHead();
      CurrentSplit(0);
    }

    lemma CurrentHead()
      requires Valid()
      ensures tail != [] && Current() != [] && Extents(Current())[0].base == 0 && |Extents(Current())| >= 2
    {
      hide Extents, Sorted;
      assert SpaceOk(current, priv[current], tail);
      CurrentSplit(0);
    }

    /** What an allocation does to order and disjointness in all spaces. */
    static lemma AllocDisjoint(p: map<Vmm, seq<Region>>, t: seq<Region>, p': map<Vmm, seq<Region>>, t': seq<Region>,
                               v: Vmm, k: nat, n: Region, start: nat, length: nat, es: seq<Extent>)
      requires v in p && Added(p, t, p', t', v, k, n) && t != [] && es == Extents(p[v] + t) && es[0].base == 0
      requires if start == 0 then FirstGap(es, length, k) && n.base == es[k].End() else StopsAt(es, start, k) && n.base == start
      requires n.length == length
      ensures DisjointIn(p, t) ==> (DisjointIn(p', t') <==> start == 0 || InGap(es, start, length))
      ensures start == 0 && es[0].length == 0 && (forall i :: 0 < i < |es| ==> es[i].length > 0) ==>
        |es| >= 2 && (n.base == 0 <==> length < es[1].base)
    {
      hide Added, Extents, Disjoint, InGap, StopsAt, GapAfter, Insert;
      if DisjointIn(p, t) {
        assert Disjoint(Extents(p[v]) + Extents(t));
        ExtentsConcat(p[v], t);
        AddedDisjoint(p, t, p', t', v, k, n);
        if start == 0 {
          AutomaticDisjoint(es, length, k);
        } else {
          ExplicitDisjoint(es, start, length, k);
        }
      }
      if start == 0 && es[0].length == 0 && (forall i :: 0 < i < |es| ==> es[i].length > 0) {
        AutomaticNull(es, length, k);
      }
    }

    /** A region added to one list keeps all lists disjoint exactly when it
        keeps that one. */
    static lemma AddedDisjoint(p: map<Vmm, seq<Region>>, t: seq<Region>, p': map<Vmm, seq<Region>>,
                               t': seq<Region>, v: Vmm, k: nat, n: Region)
      requires v in p && Added(p, t, p', t', v, k, n) && t != [] && DisjointIn(p, t)
      ensures k < |Extents(p[v] + t)|
      ensures DisjointIn(p', t') <==> Disjoint(Insert(Extents(p[v] + t), k + 1, Extent(n.base, n.length)))
    {
      hide Extents, Disjoint, Insert;
      AddedCurrent(p, t, p', t', v, k, n);
      ExtentsConcat(p'[v], t');
      if Disjoint(Extents(p'[v]) + Extents(t')) {
        forall w | w in p'
          ensures Disjoint(Extents(p'[w]) + Extents(t'))
        {
          if w != v {
            assert Disjoint(Extents(p[w]) + Extents(t));
            if n.base >= KERNEL_TEXT_START {
              InsertElements(t, k - |p[v]| + 1, n);
              assert t'[0] == InsertedAt(t, k - |p[v]| + 1, n, 0);
              SwapFront(Extents(p'[v]), Extents(p[w]), Extents(t), Extents(t'));
            }
          }
        }
      }
    }

    static lemma AllocClear(p: map<Vmm, seq<Region>>, t: seq<Region>, p': map<Vmm, seq<Region>>,
                            t': seq<Region>, v: Vmm, k: nat, n: Region)
      requires v in p && Added(p, t, p', t', v, k, n)
      ensures forall mmio: nat, stacks: nat ::
        (n.base < KERNEL_TEXT_START || OutsideZones(n.base, n.length, mmio, stacks)) && ClearZones(t, mmio, stacks) ==>
        ClearZones(t', mmio, stacks)
    {
      hide Extents, Clear, Insert;
      forall mmio: nat, stacks: nat | ClearZones(t, mmio, stacks)
        && (n.base < KERNEL_TEXT_START || OutsideZones(n.base, n.length, mmio, stacks))
        ensures ClearZones(t', mmio, stacks)
      {
        if n.base >= KERNEL_TEXT_START {
          var m := k - |p[v]| + 1;
          InsertExtents(t, m, n);
          ClearInsert(Extents(t), m, Extent(n.base, n.length), mmio, KERNEL_PMM_START);
          ClearInsert(Extents(t), m, Extent(n.base, n.length), KERNEL_HEAP_START + PAGE_SIZE, stacks);
        }
      }
    }

    // -------------------------------------------------------------- vmm_free

    static lemma Unhooked(list: seq<Region>, m: nat)
      requires 0 < m < |list| && RestLinked(list, m - 1) && list[m - 1].next == Succ(list, m)
      ensures UnhookedAt(list, m)
    {
    }

    /** Passes over element m of the private front. */
    method UnhookFront(pred: Region, ghost m: nat)
      requires Valid() && 0 < m < |priv[current]| && pred == priv[current][m - 1] && pred.next == priv[current][m]
      modifies this`priv, pred`next
      ensures Valid() && priv == old(priv)[current := Without(old(priv)[current], m)]
    {
      hide Shape, UnhookedAt, Without, Linked, RestLinked, Others;
      ghost var p, t, v := priv, tail, current;
      Members();
      FrontApart(pred);
      assert SpaceOk(v, p[v], t);
      RestFrom(v, p[v], t, m - 1);
      RestFrom(v, p[v], t, m);
      ghost var list := p[v] + t;
      assert list[m - 1] == pred && list[m] == p[v][m];
      pred.next := pred.next.next;
      Unhooked(list, m);
      SpaceDeleteFront(v, p[v], t, m);
      assert forall w :: w in p && w != v ==> SpaceOk(w, p[w], t);
      priv := p[v := Without(p[v], m)];
    }

    /** Passes over element m of the tail, which is not its first. */
    method UnhookBack(pred: Region, ghost m: nat)
      requires Valid() && 0 < m < |tail| && pred == tail[m - 1] && pred.next == tail[m]
      modifies this`tail, pred`next
      ensures Valid() && tail == Without(old(tail), m)
    {
      hide SpaceOk, Shape, UnhookedAt, RestLinked, Others, Succ, ObjectsOf;
      ghost var p, t := priv, tail;
      Members();
      forall w | w in p
        ensures Shape(w, p[w], t) && RestLinked(p[w] + t, |p[w]| + m - 1)
        ensures pred !in Others(p[w] + t, |p[w]| + m - 1)
        ensures tail[m].next == Succ(p[w] + t, |p[w]| + m)
      {
        RestFrom(w, p[w], t, |p[w]| + m - 1);
        RestFrom(w, p[w], t, |p[w]| + m);
        TailSucc(p[w], t, m - 1);
        TailSucc(p[w], t, m);
      }
      pred.next := pred.next.next;
      tail := Without(t, m);
      assert forall w :: w in p ==> RestLinked(p[w] + t, |p[w]| + m - 1);
      forall w | w in priv
        ensures SpaceOk(w, priv[w], tail)
      {
        TailSucc(p[w], t, m - 1);
        Unhooked(p[w] + t, |p[w]| + m);
        SpaceDeleteBack(w, p[w], t, m);
      }
      assert tail[0] == t[0];
    }

    static lemma SuccIs(list: seq<Region>, i: nat)
      requires i + 1 < |list|
      ensures Succ(list, i) == list[i + 1]
    {
    }

    /** Element k is the first one behind the head with the given base. */
    static ghost predicate FirstWithBase(list: seq<Region>, base: nat, k: nat) {
      && 0 < k < |list| && list[k].base == base
      && forall i :: 0 < i < k ==> list[i].base != base
    }

    /** `vmm_free`: the first region with that base behind the head, which must
        exist and not be the kernel text, leaves the list; freeing 0 does
        nothing. */
    method VmmFree(start: nat, ghost k: nat)
      requires Valid() && start != KERNEL_TEXT_START
      requires start != 0 ==> FirstWithBase(Current(), start, k)
      modifies this`priv, this`tail, Objects()`next
      ensures Valid()
      ensures start == 0 ==> priv == old(priv) && tail == old(tail)
      ensures 0 < start < KERNEL_TEXT_START ==>
        k < |old(priv)[current]| && tail == old(tail) && priv == old(priv)[current := Without(old(priv)[current], k)]
      ensures start > KERNEL_TEXT_START ==>
        k > |old(priv)[current]| && priv == old(priv) && tail == Without(old(tail), k - |old(priv)[current]|)
      ensures old(AllDisjoint()) ==> AllDisjoint()
      ensures forall mmio: nat, stacks: nat :: old(Placed(mmio, stacks)) ==> Placed(mmio, stacks)
    {
      hide SpaceOk, Extents, Sorted, Without, Succ, DisjointIn, ClearZones, FirstWithBase;
      ghost var p, t := priv, tail;
      CurrentSplit(0);
      if current.head.base == start {
        return;
      }
      var pred := FindBefore(start, k);
      FreePlace(start, k);
      InObjects(k - 1);
      if start < KERNEL_TEXT_START {
        UnhookFront(pred, k);
        FreedFront(p, t, current, k);
      } else {
        UnhookBack(pred, k - |priv[current]|);
        FreedBack(p, t, current, k - |p[current]|);
      }
    }

    /** The search loop of `vmm_free`: the node before the first with that base. */
    method FindBefore(start: nat, ghost k: nat) returns (node: Region)
      requires Valid() && start != 0 && FirstWithBase(Current(), start, k)
      ensures node == Current()[k - 1] && node.next == Current()[k]
    {
      hide SpaceOk, Extents, Sorted, Succ, ObjectsOf;
      ghost var list := Current();
      CurrentSplit(0);
      SuccIs(list, 0);
      var scan := current.head;
      ghost var i := 0;
      while scan.next.base != start
        invariant scan != null && i < k && scan == list[i] && scan.next == list[i + 1]
        decreases k - i
      {
        scan := scan.next;
        i := i + 1;
        CurrentSplit(i);
        SuccIs(list, i);
      }
      assert i + 1 == k;
      node := scan;
    }

    /** The part of the list the region to be freed stands in. */
    lemma FreePlace(start: nat, k: nat)
      requires Valid() && start != KERNEL_TEXT_START && FirstWithBase(Current(), start, k)
      ensures 0 < k < |Current()|
      ensures start < KERNEL_TEXT_START ==> k < |priv[current]|
      ensures start > KERNEL_TEXT_START ==> k > |priv[current]|
    {
      hide Extents, Sorted;
      assert SpaceOk(current, priv[current], tail);
      CurrentSplit(k);
    }

    static lemma FreedFront(p: map<Vmm, seq<Region>>, t: seq<Region>, v: Vmm, m: nat)
      requires v in p && m < |p[v]|
      ensures DisjointIn(p, t) ==> DisjointIn(p[v := Without(p[v], m)], t)
    {
      hide Extents, Disjoint, Without;
      var p' := p[v := Without(p[v], m)];
      forall w | w in p' && DisjointIn(p, t)
        ensures Disjoint(Extents(p'[w]) + Extents(t))
      {
        assert Disjoint(Extents(p[w]) + Extents(t));
        if w == v {
          WithoutExtents(p[v], m);
          DeleteFront(Extents(p[v]), Extents(t), m);
          DeleteKeeps(Extents(p[v]) + Extents(t), m);
        }
      }
    }

    static lemma FreedBack(p: map<Vmm, seq<Region>>, t: seq<Region>, v: Vmm, m: nat)
      requires v in p && 0 < m < |t|
      ensures DisjointIn(p, t) ==> DisjointIn(p, Without(t, m))
      ensures forall mmio: nat, stacks: nat :: ClearZones(t, mmio, stacks) ==> ClearZones(Without(t, m), mmio, stacks)
    {
      hide Extents, Disjoint, Clear, Without;
      WithoutExtents(t, m);
      forall mmio: nat, stacks: nat | ClearZones(t, mmio, stacks)
        ensures ClearZones(Without(t, m), mmio, stacks)
      {
        ClearWithout(Extents(t), m, mmio, KERNEL_PMM_START);
        ClearWithout(Extents(t), m, KERNEL_HEAP_START + PAGE_SIZE, stacks);
      }
      if DisjointIn(p, t) {
        forall w | w in p
          ensures Disjoint(Extents(p[w]) + Extents(Without(t, m)))
        {
          assert Disjoint(Extents(p[w]) + Extents(t));
          DeleteBack(Extents(p[w]), Extents(t), m);
          DeleteKeeps(Extents(p[w]) + Extents(t), |p[w]| + m);
        }
      }
    }

    // ------------------------------------------------- other list operations

    /** `vmm_lengthen`, without the mapping of pages. For an MMIO region the
        length has already grown when the call reports failure. */
    method VmmLengthen(start: nat, bytes: nat) returns (ok: bool, ghost k: nat)
      requires Valid()
      modifies Objects()`length
      ensures Valid() && k <= |Current()|
      ensures var es, inc := old(Extents(Current())), PageAlign(bytes);
        && (forall i :: 0 <= i < k ==> es[i].base != start)
        && (k < |es| ==> es[k].base == start)
        && (ok <==> Fits(es, k, inc) && (inc == 0 || !Current()[k].mmio))
        && Extents(Current()) == Longer(es, k, inc)
        && Extents(tail) == (if k < |priv[current]| then old(Extents(tail)) else Longer(old(Extents(tail)), k - |priv[current]|, inc))
      ensures forall v :: v in priv && v != current ==> Extents(priv[v]) == old(Extents(priv[v]))
      ensures old(AllDisjoint()) ==> AllDisjoint()
      ensures var es, inc := old(Extents(Current())), PageAlign(bytes);
        old(AllDisjoint()) && k < |es| ==>
          && (ok <==> Disjoint(Grown(es, k, inc)) && (inc == 0 || !Current()[k].mmio))
          && Extents(Current()) == if Disjoint(Grown(es, k, inc)) then Grown(es, k, inc) else es
    {
      hide SpaceOk, Extents, PageAlign, Sorted, DisjointIn, Fits, Disjoint;
      var inc := PageAlign(bytes);
      GrowsWhen(inc);
      var node;
      node, k := FindFitting(start, inc);
      if k >= |priv[current]| {
        TailExtents(k, inc);
      }
      if node == null {
        return false, k;
      }
      FitsInside(Extents(Current()), k, inc);
      InObjects(k);
      LengthenNode(node, k, inc);
      return inc == 0 || !node.mmio, k;
    }

    /** The search of `vmm_lengthen` and its test: the node, if it may grow. */
    method FindFitting(start: nat, inc: nat) returns (node: Region?, ghost k: nat)
      requires Valid()
      ensures k <= |Current()| && (k < |Current()| ==> Current()[k].base == start)
      ensures forall i :: 0 <= i < k ==> Current()[i].base != start
      ensures node != null <==> Fits(Extents(Current()), k, inc)
      ensures node != null ==> k < |Current()| && node == Current()[k]
    {
      hide SpaceOk, Extents, Sorted;
      node, k := FindBase(start);
      if node != null {
        CurrentSplit(k);
        if node.next != null && !(node.base + node.length + inc <= node.next.base) {
          node := null;
        }
      }
    }

    /** When a region of the current list may grow. */
    lemma GrowsWhen(inc: nat)
      requires Valid()
      ensures AllDisjoint() ==>
        forall k: nat :: k < |Extents(Current())| ==>
          (Fits(Extents(Current()), k, inc) <==> Disjoint(Grown(Extents(Current()), k, inc)))
    {
      hide Extents, Disjoint, SpaceOk, Fits;
      ExtentsConcat(priv[current], tail);
      if AllDisjoint() {
        forall k: nat | k < |Extents(Current())|
          ensures Fits(Extents(Current()), k, inc) <==> Disjoint(Grown(Extents(Current()), k, inc))
        {
          GrowsIff(Extents(Current()), k, inc);
        }
      }
    }

    static lemma FitsInside(es: seq<Extent>, k: nat, inc: nat)
      requires Fits(es, k, inc)
      ensures k < |es|
    {
    }

    /** Whether a region of the tail may grow shows in the tail alone. */
    lemma TailExtents(k: nat, inc: nat)
      requires Valid() && |priv[current]| <= k <= |Current()|
      ensures Fits(Extents(Current()), k, inc) <==> Fits(Extents(tail), k - |priv[current]|, inc)
    {
      hide Extents;
      ExtentsConcat(priv[current], tail);
    }

    /** The store of `vmm_lengthen`. */
    method LengthenNode(node: Region, ghost k: nat, inc: nat)
      requires Valid() && k < |Current()| && node == Current()[k] && Fits(Extents(Current()), k, inc)
      modifies node`length
      ensures Valid() && Extents(Current()) == Longer(old(Extents(Current())), k, inc)
      ensures Extents(tail) == if k < |priv[current]| then old(Extents(tail)) else Longer(old(Extents(tail)), k - |priv[current]|, inc)
      ensures forall v :: v in priv && v != current ==> Extents(priv[v]) == old(Extents(priv[v]))
      ensures old(AllDisjoint()) ==> AllDisjoint()
    {
      hide SpaceOk, ObjectsOf, Extents, Sorted, DisjointIn;
      ghost var list, v := Current(), current;
      ghost var es := Extents(list);
      DistinctCurrent();
      NodeApart(k);
      ghost var fronts := map w | w in priv :: Extents(priv[w]);
      ghost var back := Extents(tail);
      FrontsDisjoint(fronts, back);
      ExtentsConcat(priv[v], tail);
      node.length := node.length + inc;
      assert Extents(list) == Longer(es, k, inc);
      Lengthened(priv, tail, v, k, inc, es, fronts, back);
    }

    /** The lists of all spaces as values. */
    lemma FrontsDisjoint(fronts: map<Vmm, seq<Extent>>, back: seq<Extent>)
      requires Valid() && fronts.Keys == priv.Keys && (forall w :: w in priv ==> fronts[w] == Extents(priv[w]))
      requires back == Extents(tail)
      ensures AllDisjoint() ==> forall w :: w in fronts ==> Disjoint(fronts[w] + back)
    {
      hide Extents, Disjoint, SpaceOk;
    }

    /** A region of the current list is in no other front, and in the tail only
        if it stands there. */
    lemma NodeApart(k: nat)
      requires Valid() && k < |Current()|
      ensures forall w :: w in priv && w != current ==> Current()[k] !in priv[w]
      ensures k < |priv[current]| ==> Current()[k] !in tail
    {
      hide Linked, SortedBases;
      assert SpaceOk(current, priv[current], tail);
      forall w | w in priv && w != current
        ensures Current()[k] !in priv[w]
      {
        assert SpaceOk(w, priv[w], tail);
      }
    }

    /** Lengthening element k of the list of space v keeps all lists disjoint. */
    static lemma Lengthened(p: map<Vmm, seq<Region>>, t: seq<Region>, v: Vmm, k: nat, inc: nat, es: seq<Extent>,
                            fronts: map<Vmm, seq<Extent>>, back: seq<Extent>)
      requires v in p && k < |p[v] + t| && t != [] && fronts.Keys == p.Keys && Fits(es, k, inc)
      requires es == fronts[v] + back && |fronts[v]| == |p[v]| && Extents(p[v] + t) == Longer(es, k, inc)
      requires forall w :: w in p && w != v ==> Extents(p[w]) == fronts[w]
      requires k < |p[v]| ==> Extents(t) == back
      ensures Extents(t) == if k < |p[v]| then back else Longer(back, k - |p[v]|, inc)
      ensures (forall w :: w in fronts ==> Disjoint(fronts[w] + back)) ==> DisjointIn(p, t)
    {
      hide Extents, Disjoint;
      ExtentsConcat(p[v], t);
      assert Extents(t) == Longer(es, k, inc)[|p[v]|..];
      assert back == es[|p[v]|..];
      if forall w :: w in fronts ==> Disjoint(fronts[w] + back) {
        assert Disjoint(fronts[v] + back);
        LengthenKeeps(es, k, inc);
        forall w | w in p
          ensures Disjoint(Extents(p[w]) + Extents(t))
        {
          if w != v && k >= |p[v]| {
            SwapFront(Extents(p[v]), fronts[w], back, Extents(t));
          }
        }
      }
    }

    lemma InObjects(k: nat)
      requires Valid() && k < |Current()|
      ensures Current()[k] in Objects()
    {
      hide SpaceOk;
      Members();
    }

    /** The search loop of `vmm_lengthen`. */
    method FindBase(start: nat) returns (node: Region?, ghost k: nat)
      requires Valid()
      ensures k <= |Current()| && node == (if k < |Current()| then Current()[k] else null)
      ensures k < |Current()| ==> Current()[k].base == start
      ensures forall i :: 0 <= i < k ==> Current()[i].base != start
    {
      hide SpaceOk, ObjectsOf, Extents, Sorted;
      k := 0;
      CurrentSplit(0);
      node := current.head;
      while node != null
        invariant k <= |Current()| && node == (if k < |Current()| then Current()[k] else null)
        invariant forall i :: 0 <= i < k ==> Current()[i].base != start
        decreases |Current()| - k
      {
        if node.base == start {
          return;
        }
        CurrentSplit(k);
        node := node.next;
        k := k + 1;
      }
    }

    lemma DistinctCurrent()
      requires Valid()
      ensures forall i, j :: 0 <= i < j < |Current()| ==> Current()[i] != Current()[j]
    {
      assert SpaceOk(current, priv[current], tail);
    }

    /** `create_vmm`: a space with an empty private front. */
    method CreateVmm() returns (vmm: Vmm)
      requires Valid()
      modifies this`priv
      ensures Valid() && fresh(vmm) && priv.Keys == old(priv).Keys + {vmm}
      ensures forall v :: v in old(priv) ==> priv[v] == old(priv)[v]
      ensures |priv[vmm]| == 1 && priv[vmm][0].length == 0 && !priv[vmm][0].mmio
      ensures old(AllDisjoint()) ==> AllDisjoint()
      ensures forall mmio: nat, stacks: nat :: old(Placed(mmio, stacks)) ==> Placed(mmio, stacks)
    {
      hide SpaceOk, Extents, DisjointIn, ClearZones;
      Members();
      ghost var p := priv;
      vmm := new Vmm();
      var head := new Region(0, 0, false, kernelText, vmm);
      vmm.head := head;
      assert head !in tail;
      assert SpaceOk(current, priv[current], tail);
      NewSpace(vmm, head, current, priv[current], tail);
      priv := priv[vmm := [head]];
      assert forall v :: v in p ==> SpaceOk(v, p[v], tail);
      EmptyFront(p, tail, current, vmm, head);
    }

    static lemma EmptyFront(p: map<Vmm, seq<Region>>, t: seq<Region>, v: Vmm, vmm: Vmm, head: Region)
      requires v in p && head.base == 0 && head.length == 0
      ensures DisjointIn(p, t) ==> DisjointIn(p[vmm := [head]], t)
    {
      hide Extents, Disjoint;
      ExtentsOne(head);
      if DisjointIn(p, t) {
        assert Disjoint(Extents(p[v]) + Extents(t));
        NewFront(Extents(p[v]), Extents(t));
      }
    }

    static lemma NewSpace(vmm: Vmm, head: Region, v: Vmm, p: seq<Region>, tail: seq<Region>)
      requires SpaceOk(v, p, tail) && vmm.head == head && head.base == 0 && head.owner == vmm
      requires head.next == tail[0] && head !in tail
      ensures SpaceOk(vmm, [head], tail)
    {
      hide Linked, SortedBases;
      LinkedFacts(v, p, tail);
      NewLinked(head, p, tail);
      SortedFront(head, p, tail);
    }

    static lemma NewLinked(head: Region, p: seq<Region>, tail: seq<Region>)
      requires Linked(p + tail) && tail != [] && head.next == tail[0] && head !in tail
      ensures Linked([head] + tail)
    {
      var list, full := [head] + tail, p + tail;
      forall i | 0 <= i < |list|
        ensures list[i].next == Succ(list, i)
      {
        if i > 0 {
          assert list[i] == full[|p| + i - 1];
          TailSucc(p, tail, i - 1);
          TailSucc([head], tail, i - 1);
        }
      }
      forall i, j | 0 <= i < j < |list|
        ensures list[i] != list[j]
      {
        assert list[j] == full[|p| + j - 1];
        if i > 0 {
          assert list[i] == full[|p| + i - 1];
        }
      }
    }

    static lemma SortedFront(head: Region, p: seq<Region>, tail: seq<Region>)
      requires SortedBases(p + tail) && head.base == 0
      ensures SortedBases([head] + tail)
    {
      var list, full := [head] + tail, p + tail;
      forall i, j | 0 <= i < j < |list|
        ensures list[i].base <= list[j].base
      {
        assert list[j] == full[|p| + j - 1];
        if i > 0 {
          assert list[i] == full[|p| + i - 1];
        }
      }
    }

    /** `switch_vm_space`. */
    method SwitchTo(vmm: Vmm)
      requires Valid() && vmm in priv
      modifies this`current
      ensures Valid() && current == vmm
    {
      current := vmm;
    }

    // ------------------------------------------------ the freeing loop of reap

    /** The loop of `reap_process` over the list of its space, run while that
        space is current: it ends at the kernel text, and what it leaves of the
        private front are the nodes with base 0. */
    method FreeUserRegions()
      requires Valid()
      modifies this`priv, this`tail, Objects()`next
      ensures Valid() && tail == old(tail) && priv.Keys == old(priv).Keys
      ensures forall v :: v in priv && v != current ==> priv[v] == old(priv)[v]
      ensures priv[current] <= old(priv)[current]
      ensures forall i :: 0 <= i < |priv[current]| ==> priv[current][i].base == 0
      ensures forall i :: |priv[current]| <= i < |old(priv)[current]| ==> old(priv)[current][i].base != 0
      ensures forall mmio: nat, stacks: nat :: old(Placed(mmio, stacks)) ==> Placed(mmio, stacks)
    {
      hide SpaceOk, ObjectsOf, Extents, Sorted, Without, Remaining, FirstWithBase;
      ghost var p, p0, t, v := priv[current], priv, tail, current;
      CurrentSplit(0);
      ghost var z := ZeroFront();
      RemainingEnds(p, z);
      ghost var i := 0;
      var node := current.head;
      while node.base != KERNEL_TEXT_START
        invariant Valid() && tail == t && current == v
        invariant i <= |p| && node == (p + t)[i]
        invariant priv == p0[v := Remaining(p, z, i)]
        invariant forall mmio: nat, stacks: nat :: old(Placed(mmio, stacks)) ==> Placed(mmio, stacks)
        decreases |p| - i
      {
        assert i < |p|;
        ObjectsShrink(p0, t, v, z, i);
        RemainingAt(p, t, z, i);
        CurrentSplit(if i < z then i else z);
        var base := node.base;
        node := node.next;
        VmmFree(base, z);
        RemainingStep(p, z, i);
        i := i + 1;
      }
    }

    /** What is left of the private front p after i steps, z being the number
        of its nodes with base 0, which come first. */
    static ghost function Remaining(p: seq<Region>, z: nat, i: nat): seq<Region>
      requires z <= |p| && i <= |p|
    {
      if i <= z then p else p[..z] + p[i..]
    }

    lemma ZeroFront() returns (z: nat)
      requires Valid()
      ensures 0 < z <= |priv[current]|
      ensures forall i :: 0 <= i < z ==> priv[current][i].base == 0
      ensures forall i :: z <= i < |priv[current]| ==> priv[current][i].base != 0
      ensures forall i :: 0 <= i < |priv[current]| ==> priv[current][i].base < KERNEL_TEXT_START
      ensures tail[0].base == KERNEL_TEXT_START
    {
      var p := priv[current];
      assert SpaceOk(current, p, tail);
      z := 1;
      while z < |p| && p[z].base == 0
        invariant 0 < z <= |p| && forall i :: 0 <= i < z ==> p[i].base == 0
      {
        z := z + 1;
      }
      forall i | z <= i < |p|
        ensures p[i].base != 0
      {
        assert z < i ==> (p + tail)[z].base <= (p + tail)[i].base;
      }
    }

    static lemma RemainingEnds(p: seq<Region>, z: nat)
      requires z <= |p|
      ensures Remaining(p, z, 0) == p && Remaining(p, z, |p|) == p[..z]
    {
    }

    static lemma RemainingAt(p: seq<Region>, t: seq<Region>, z: nat, i: nat)
      requires 0 < z <= |p| && i < |p| && t != []
      requires forall j :: 0 <= j < z ==> p[j].base == 0
      requires forall j :: z <= j < |p| ==> p[j].base != 0
      ensures var q, k := Remaining(p, z, i), if i < z then i else z;
        && k < |q| && (q + t)[k] == p[i] && Succ(q + t, k) == (p + t)[i + 1]
        && (i < z <==> p[i].base == 0)
        && (i >= z ==> FirstWithBase(q + t, p[i].base, z))
    {
      var q := Remaining(p, z, i);
      if i >= z {
        assert q == p[..z] + p[i..];
        assert forall j :: 0 <= j < z ==> (q + t)[j] == p[j];
      }
    }

    static lemma RemainingStep(p: seq<Region>, z: nat, i: nat)
      requires 0 < z <= |p| && i < |p|
      ensures i < z ==> Remaining(p, z, i + 1) == Remaining(p, z, i)
      ensures i >= z ==> z < |Remaining(p, z, i)| && Remaining(p, z, i + 1) == Without(Remaining(p, z, i), z)
    {
      if i >= z {
        assert Remaining(p, z, i) == p[..z] + p[i..];
      }
    }

    static lemma ObjectsShrink(p0: map<Vmm, seq<Region>>, t: seq<Region>, v: Vmm, z: nat, i: nat)
      requires v in p0 && z <= |p0[v]| && i <= |p0[v]|
      ensures ObjectsOf(p0[v := Remaining(p0[v], z, i)], t) <= ObjectsOf(p0, t)
    {
      var q := Remaining(p0[v], z, i);
      forall j | 0 <= j < |q|
        ensures q[j] in ObjectsOf(p0, t)
      {
        var n := if i <= z || j < z then j else j - z + i;
        assert q[j] == p0[v][n];
      }
    }

    // ------------------------------------------------------- bump allocation

    /** A kernel region placed in one of the two zones keeps all lists
        disjoint. */
    method AllocInZone(start: nat, length: nat, mmio: bool, ghost lo: nat, ghost hi: nat)
      returns (ghost m: nat, ghost n: Region)
      requires Valid() && Clear(Extents(tail), lo, hi) && KERNEL_TEXT_START <= lo <= start && start + length <= hi
      requires length > 0 && start % PAGE_SIZE == 0 && length % PAGE_SIZE == 0
      requires AllDisjoint()
      modifies this`priv, this`tail, Objects()`next
      ensures Valid() && priv == old(priv) && m < |old(tail)| && tail == Insert(old(tail), m + 1, n)
      ensures fresh(n) && n.base == start && n.length == length && n.mmio == mmio
      ensures AllDisjoint()
    {
      hide SpaceOk, ObjectsOf, Extents, Disjoint, Clear, StopsAt, Rejected, Insert, PageAlign, PageAlignDown;
      ghost var t, p := tail, priv;
      ExtentsConcat(p[current], t);
      TailBase();
      var r;
      ghost var k, node;
      Aligned(start);
      Aligned(length);
      r, k, node := VmmAlloc(start, length, mmio);
      ZoneStops(Extents(p[current]), Extents(t), lo, hi, start, length, k);
      m, n := k - |p[current]|, node;
      InsertExtents(t, m + 1, n);
      forall v | v in priv
        ensures Disjoint(Extents(priv[v]) + Extents(tail))
      {
        TailInsertDisjoint(Extents(p[v]), Extents(t), lo, hi, m, Extent(start, length));
      }
    }

    static lemma Aligned(n: nat)
      requires n % PAGE_SIZE == 0
      ensures PageAlign(n) == n && PageAlignDown(n) == n
    {
    }

    static lemma ExtentsConcat(p: seq<Region>, t: seq<Region>)
      ensures Extents(p + t) == Extents(p) + Extents(t)
    {
    }

    lemma TailBase()
      requires Valid()
      ensures priv[current] != [] && Extents(priv[current])[0].base == 0
      ensures Extents(tail)[0].base == KERNEL_TEXT_START
    {
      assert SpaceOk(current, priv[current], tail);
    }

    /** `alloc_mmio`: contiguous ranges upwards from the VGA buffer. The new
        pointer is returned. */
    method AllocMmio(mmioRegion: nat, bytes: nat, ghost stacks: nat) returns (region: nat, next: nat, ghost m: nat, ghost n: Region)
      requires Valid() && Placed(mmioRegion, stacks) && KERNEL_TEXT_START <= mmioRegion && bytes > 0
      requires mmioRegion % PAGE_SIZE == 0
      requires mmioRegion + PageAlign(bytes) <= KERNEL_PMM_START
      modifies this`priv, this`tail, Objects()`next
      ensures Valid() && region == mmioRegion && next == mmioRegion + PageAlign(bytes)
      ensures Placed(next, stacks)
      ensures m < |old(tail)| && tail == Insert(old(tail), m + 1, n) && priv == old(priv)
      ensures fresh(n) && n.base == region && n.length == PageAlign(bytes) && n.mmio
    {
      hide SpaceOk, ObjectsOf, Extents, Disjoint, Clear, PageAlign, Insert;
      var length := PageAlign(bytes);
      ghost var t := tail;
      m, n := AllocInZone(mmioRegion, length, true, mmioRegion, KERNEL_PMM_START);
      region, next := mmioRegion, mmioRegion + length;
      InsertExtents(t, m + 1, n);
      ClearSmaller(Extents(t), mmioRegion, KERNEL_PMM_START, next, KERNEL_PMM_START);
      ClearInsert(Extents(t), m + 1, Extent(region, length), next, KERNEL_PMM_START);
      ClearInsert(Extents(t), m + 1, Extent(region, length), KERNEL_HEAP_START + PAGE_SIZE, stacks);
    }

    /** A range from `alloc_mmio` never makes `vmm_lengthen` report success for a
        positive increment, unless an empty region at the same address comes
        first: growing, it reports failure too. */
    method LengthenMmio(mmioRegion: nat, bytes: nat, more: nat, ghost stacks: nat) returns (ok: bool)
      requires Valid() && Placed(mmioRegion, stacks) && KERNEL_TEXT_START <= mmioRegion && bytes > 0
      requires mmioRegion % PAGE_SIZE == 0 && mmioRegion + PageAlign(bytes) <= KERNEL_PMM_START
      requires forall i :: 0 <= i < |Current()| ==> Current()[i].base != mmioRegion
      requires more > 0
      modifies this`priv, this`tail, Objects()`next, Objects()`length
      ensures Valid() && !ok
    {
      hide SpaceOk, ObjectsOf, Extents, Disjoint, DisjointIn, ClearZones, PageAlign, Insert, Sorted;
      ghost var ps, p, t := priv, priv[current], tail;
      assert forall i :: 0 <= i < |p + t| ==> (p + t)[i] == Current()[i];
      var region, next;
      ghost var m, n;
      region, next, m, n := AllocMmio(mmioRegion, bytes, stacks);
      OnlyNew(p, t, m, n);
      ObjectsAdded(ps, t, m, n);
      ghost var k;
      ok, k := VmmLengthen(region, more);
    }

    static lemma ObjectsAdded(p: map<Vmm, seq<Region>>, t: seq<Region>, m: nat, n: Region)
      requires m < |t|
      ensures ObjectsOf(p, Insert(t, m + 1, n)) <= ObjectsOf(p, t) + {n}
    {
      hide Insert;
      InsertElements(t, m + 1, n);
      var l := Insert(t, m + 1, n);
      forall i | 0 <= i < |l|
        ensures l[i] == n || l[i] in ObjectsOf(p, t)
      {
        assert l[i] == InsertedAt(t, m + 1, n, i);
      }
    }

    static lemma OnlyNew(p: seq<Region>, t: seq<Region>, m: nat, n: Region)
      requires m < |t| && forall i :: 0 <= i < |p + t| ==> (p + t)[i].base != n.base
      ensures var list := p + Insert(t, m + 1, n);
        forall i :: 0 <= i < |list| && list[i].base == n.base ==> list[i] == n
    {
      hide Insert;
      InsertBack(p, t, m + 1, n);
      InsertElements(p + t, |p| + m + 1, n);
      var list := p + Insert(t, m + 1, n);
      forall i | 0 <= i < |list| && list[i].base == n.base
        ensures list[i] == n
      {
        assert list[i] == InsertedAt(p + t, |p| + m + 1, n, i);
      }
    }

    /** `alloc_kernel_stack`: stacks downwards, one unmapped page apart, above
        the first page of the heap. The new pointer is returned. */
    method AllocKernelStack(kernelStackPtr: nat, ghost mmio: nat)
      returns (stack: nat, ghost m: nat, ghost n: Region)
      requires Valid() && Placed(mmio, kernelStackPtr) && kernelStackPtr % PAGE_SIZE == 0
      requires KERNEL_HEAP_START + PAGE_SIZE + KERNEL_STACK_SIZE + 0x1000 <= kernelStackPtr
      modifies this`priv, this`tail, Objects()`next
      ensures Valid() && stack == kernelStackPtr - (KERNEL_STACK_SIZE + 0x1000)
      ensures Placed(mmio, stack)
      ensures m < |old(tail)| && tail == Insert(old(tail), m + 1, n) && priv == old(priv)
      ensures fresh(n) && n.base == stack && n.length == KERNEL_STACK_SIZE && !n.mmio
    {
      hide SpaceOk, ObjectsOf, Extents, Disjoint, Clear, Insert;
      stack := kernelStackPtr - (KERNEL_STACK_SIZE + 0x1000);
      ghost var t := tail;
      m, n := AllocInZone(stack, KERNEL_STACK_SIZE, false, KERNEL_HEAP_START + PAGE_SIZE, kernelStackPtr);
      InsertExtents(t, m + 1, n);
      ClearSmaller(Extents(t), KERNEL_HEAP_START + PAGE_SIZE, kernelStackPtr, KERNEL_HEAP_START + PAGE_SIZE, stack);
      ClearInsert(Extents(t), m + 1, Extent(stack, KERNEL_STACK_SIZE), KERNEL_HEAP_START + PAGE_SIZE, stack);
      ClearInsert(Extents(t), m + 1, Extent(stack, KERNEL_STACK_SIZE), mmio, KERNEL_PMM_START);
    }
  }
}
