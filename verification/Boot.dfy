/** The page tables the boot code leaves behind and `vmm_init` registers. */
module Boot {
  import opened Common
  import opened Address
  import opened TableForest
  import opened PageTables
  import opened AddressSpaces
  import RegionSpec

  /** The eight tables lie one after another from physical address `phys`, in
      the order pml4t, pdpt, pd, pt, pdpt2, pd2, pt2, pt3. */
  function At(phys: Frame, k: nat): Frame { phys + k * 0x1000 }

  /** A directory with up to two entries. */
  function Directory(i: nat, f: Frame, j: nat, g: Frame): (t: seq<Entry>)
    ensures |t| == 512
  {
    seq(512, k => if k == i then Entry(true, f) else if k == j then Entry(true, g) else NO_ENTRY)
  }

  function BootTable(phys: Frame, k: nat, pt: seq<Entry>, pt2: seq<Entry>, pt3: seq<Entry>): (t: seq<Entry>)
    requires |pt| == 512 && |pt2| == 512 && |pt3| == 512
    ensures |t| == 512
  {
    if k == 0 then Directory(511, At(phys, 1), 0, At(phys, 4))
    else if k == 1 then Directory(0, At(phys, 2), 0, At(phys, 2))
    else if k == 2 then Directory(0, At(phys, 3), 1, At(phys, 7))
    else if k == 3 then pt
    else if k == 4 then Directory(0, At(phys, 5), 0, At(phys, 5))
    else if k == 5 then Directory(0, At(phys, 6), 0, At(phys, 6))
    else if k == 6 then pt2
    else pt3
  }

  function BootPlace(root: Frame, k: nat): Place {
    if k == 0 then Place(Space(root), [])
    else if k == 1 then Place(Kernel, [511])
    else if k == 2 then Place(Kernel, [511, 0])
    else if k == 3 then Place(Kernel, [511, 0, 0])
    else if k == 4 then Place(Space(root), [0])
    else if k == 5 then Place(Space(root), [0, 0])
    else if k == 6 then Place(Space(root), [0, 0, 0])
    else Place(Kernel, [511, 0, 1])
  }

  /** Which of the eight tables a boot frame or a boot address is. */
  function Ordinal(base: nat, a: nat): int { (a - base) / 0x1000 }

  predicate IsBoot(base: nat, a: nat) {
    base <= a < base + 0x8000 && (a - base) % 0x1000 == 0
  }

  function BootForest(phys: Frame, virt: Vaddr, pt: seq<Entry>, pt2: seq<Entry>, pt3: seq<Entry>): Forest
    requires |pt| == 512 && |pt2| == 512 && |pt3| == 512
  {
    Forest(
      map v | virt <= v < virt + 0x8000 && IsBoot(virt, v) :: BootTable(phys, Ordinal(virt, v), pt, pt2, pt3),
      map f | phys <= f < phys + 0x8000 && IsBoot(phys, f) :: virt + (f - phys),
      map f | phys <= f < phys + 0x8000 && IsBoot(phys, f) :: BootPlace(phys, Ordinal(phys, f)),
      {phys})
  }

  /** What is recorded for a boot frame. */
  lemma BootFrame(phys: Frame, virt: Vaddr, pt: seq<Entry>, pt2: seq<Entry>, pt3: seq<Entry>, f: Frame)
    requires |pt| == 512 && |pt2| == 512 && |pt3| == 512
    ensures var m, k := BootForest(phys, virt, pt, pt2, pt3), Ordinal(phys, f);
      && (f in m.vaddrOf <==> IsBoot(phys, f)) && (f in m.place <==> IsBoot(phys, f))
      && (IsBoot(phys, f) ==>
            && 0 <= k < 8 && f == At(phys, k) && m.vaddrOf[f] == At(virt, k)
            && At(virt, k) in m.tables && m.tables[At(virt, k)] == BootTable(phys, k, pt, pt2, pt3)
            && m.place[f] == BootPlace(phys, k))
  {
    hide BootTable, BootPlace;
    if IsBoot(phys, f) {
      var k := Ordinal(phys, f);
      assert virt + (f - phys) == At(virt, k);
      assert IsBoot(virt, At(virt, k)) && Ordinal(virt, At(virt, k)) == k;
    }
  }

  lemma BootTables(phys: Frame, virt: Vaddr, pt: seq<Entry>, pt2: seq<Entry>, pt3: seq<Entry>)
    requires |pt| == 512 && |pt2| == 512 && |pt3| == 512
    ensures var m := BootForest(phys, virt, pt, pt2, pt3);
      && Shaped(m)
      && forall f :: f in m.vaddrOf ==>
           0 <= Ordinal(phys, f) < 8 && f == At(phys, Ordinal(phys, f))
           && Table(m, f) == BootTable(phys, Ordinal(phys, f), pt, pt2, pt3)
           && m.place[f] == BootPlace(phys, Ordinal(phys, f))
  {
    hide BootForest, BootTable;
    var m := BootForest(phys, virt, pt, pt2, pt3);
    forall f
      ensures f in m.vaddrOf <==> f in m.place
      ensures f in m.vaddrOf ==>
           0 <= Ordinal(phys, f) < 8 && f == At(phys, Ordinal(phys, f)) && m.vaddrOf[f] == At(virt, Ordinal(phys, f))
           && m.vaddrOf[f] in m.tables && m.tables[m.vaddrOf[f]] == BootTable(phys, Ordinal(phys, f), pt, pt2, pt3)
           && m.place[f] == BootPlace(phys, Ordinal(phys, f))
    {
      BootFrame(phys, virt, pt, pt2, pt3, f);
    }
  }

  /** Which boot table hangs at entry i of directory k. */
  function Target(k: nat, i: nat): (j: nat)
    requires k < 8
    ensures k != 3 && k != 6 && k != 7 ==> j < 8
  {
    if k == 0 then (if i == 511 then 1 else 4)
    else if k == 2 then (if i == 0 then 3 else 7)
    else k + 1
  }

  /** Every directory entry leads to the boot table that belongs there. */
  lemma BootEntry(phys: Frame, k: nat, i: nat, pt: seq<Entry>, pt2: seq<Entry>, pt3: seq<Entry>)
    requires |pt| == 512 && |pt2| == 512 && |pt3| == 512 && k < 8 && i < 512
    requires |BootPlace(phys, k).path| < 3 && BootTable(phys, k, pt, pt2, pt3)[i].present
    ensures Target(k, i) < 8 && BootTable(phys, k, pt, pt2, pt3)[i].frame == At(phys, Target(k, i))
    ensures BootPlace(phys, Target(k, i)) == Child(BootPlace(phys, k), i)
  {
  }

  lemma BootLeads(phys: Frame, virt: Vaddr, pt: seq<Entry>, pt2: seq<Entry>, pt3: seq<Entry>, f: Frame, i: nat)
    requires |pt| == 512 && |pt2| == 512 && |pt3| == 512 && i < 512
    requires var m := BootForest(phys, virt, pt, pt2, pt3);
      Shaped(m) && f in m.vaddrOf && |m.place[f].path| < 3 && Table(m, f)[i].present
    ensures var m := BootForest(phys, virt, pt, pt2, pt3);
      var g := Table(m, f)[i].frame;
      IsBoot(phys, g) && g in m.vaddrOf && m.place[g] == Child(m.place[f], i)
  {
    hide BootTable, BootPlace, Target;
    BootTables(phys, virt, pt, pt2, pt3);
    var m := BootForest(phys, virt, pt, pt2, pt3);
    var k := Ordinal(phys, f);
    BootEntry(phys, k, i, pt, pt2, pt3);
    var g := Table(m, f)[i].frame;
    assert g == At(phys, Target(k, i));
    assert Ordinal(phys, g) == Target(k, i);
  }

  lemma BootWellFormed(phys: Frame, virt: Vaddr, pt: seq<Entry>, pt2: seq<Entry>, pt3: seq<Entry>)
    requires |pt| == 512 && |pt2| == 512 && |pt3| == 512
    ensures WellFormed(BootForest(phys, virt, pt, pt2, pt3))
  {
    hide BootTable, BootPlace;
    var m := BootForest(phys, virt, pt, pt2, pt3);
    BootTables(phys, virt, pt, pt2, pt3);
    BootLinked(phys, virt, pt, pt2, pt3);
    BootRoot(phys, pt, pt2, pt3);
    assert phys in m.vaddrOf && Ordinal(phys, phys) == 0;
  }

  lemma BootLinked(phys: Frame, virt: Vaddr, pt: seq<Entry>, pt2: seq<Entry>, pt3: seq<Entry>)
    requires |pt| == 512 && |pt2| == 512 && |pt3| == 512
    ensures var m := BootForest(phys, virt, pt, pt2, pt3);
      Shaped(m) && Linked(m) && Closed(m)
  {
    hide BootForest, Child, Table;
    var m := BootForest(phys, virt, pt, pt2, pt3);
    BootTables(phys, virt, pt, pt2, pt3);
    forall f, i | f in m.vaddrOf && 0 <= i < 512 && |m.place[f].path| < 3 && Table(m, f)[i].present
      ensures Table(m, f)[i].frame in m.vaddrOf && m.place[Table(m, f)[i].frame] == Child(m.place[f], i)
    {
      BootLeads(phys, virt, pt, pt2, pt3, f, i);
    }
  }

  lemma BootRoot(phys: Frame, pt: seq<Entry>, pt2: seq<Entry>, pt3: seq<Entry>)
    requires |pt| == 512 && |pt2| == 512 && |pt3| == 512
    ensures BootPlace(phys, 0) == RootPlace(phys) && BootTable(phys, 0, pt, pt2, pt3)[511].present
  {
  }

  /** Frames that are not boot tables: what `pmm_alloc_page` must hand out, at
      most as many as 32-bit addresses can name. */
  ghost predicate Spare(phys: Frame, pmm: seq<Frame>) {
    && |pmm| <= 0x10_0000
    && (forall i, j :: 0 <= i < j < |pmm| ==> pmm[i] != pmm[j])
    && (forall i :: 0 <= i < |pmm| ==> pmm[i] != 0 && pmm[i] % 0x1000 == 0 && !IsBoot(phys, pmm[i]))
  }

  /** Which boot table serves a page: pt and pt3 in the kernel half, pt2 for the
      first two megabytes, none elsewhere. */
  function LeafOf(p: Page): (k: Option<nat>)
    requires |p| == 4
    ensures k.Some? ==> k.value < 8
  {
    if p[1] != 0 then None
    else if p[0] == 511 && p[2] == 0 then Some(3)
    else if p[0] == 511 && p[2] == 1 then Some(7)
    else if p[0] == 0 && p[2] == 0 then Some(6)
    else None
  }

  lemma BootDescend(phys: Frame, virt: Vaddr, pt: seq<Entry>, pt2: seq<Entry>, pt3: seq<Entry>, p: Page)
    requires |pt| == 512 && |pt2| == 512 && |pt3| == 512 && ValidPage(p)
    ensures Shaped(BootForest(phys, virt, pt, pt2, pt3)) && phys in BootForest(phys, virt, pt, pt2, pt3).vaddrOf
    ensures Descend(BootForest(phys, virt, pt, pt2, pt3), phys, p, 3)
         == if LeafOf(p).None? then None else Some(At(phys, LeafOf(p).value))
  {
    hide BootForest;
    var m := BootForest(phys, virt, pt, pt2, pt3);
    BootTables(phys, virt, pt, pt2, pt3);
    BootStep(phys, virt, pt, pt2, pt3, 0, p[0]);
    assert Descend(m, phys, p, 0) == Some(phys) && phys == At(phys, 0);
    var k := if p[0] == 511 then 1 else 4;
    if p[0] == 511 || p[0] == 0 {
      assert Descend(m, phys, p, 1) == Some(At(phys, k));
      BootStep(phys, virt, pt, pt2, pt3, k, p[1]);
      assert Descend(m, phys, p, 2) == if p[1] == 0 then Some(At(phys, k + 1)) else None;
      BootStep(phys, virt, pt, pt2, pt3, k + 1, p[2]);
    } else {
      assert Descend(m, phys, p, 1) == None;
      assert Descend(m, phys, p, 2) == None;
    }
  }

  /** Where entry i of directory k leads. */
  lemma BootStep(phys: Frame, virt: Vaddr, pt: seq<Entry>, pt2: seq<Entry>, pt3: seq<Entry>, k: nat, i: nat)
    requires |pt| == 512 && |pt2| == 512 && |pt3| == 512 && k < 8 && k != 3 && k != 6 && k != 7 && i < 512
    ensures var m := BootForest(phys, virt, pt, pt2, pt3);
      && Shaped(m) && At(phys, k) in m.vaddrOf
      && Step(m, At(phys, k), i) ==
         if i == 0 && k == 0 then Some(At(phys, 4))
         else if i == 511 && k == 0 then Some(At(phys, 1))
         else if i == 1 && k == 2 then Some(At(phys, 7))
         else if i == 0 && k != 0 then Some(At(phys, k + 1))
         else None
  {
    hide BootForest;
    var m := BootForest(phys, virt, pt, pt2, pt3);
    BootTables(phys, virt, pt, pt2, pt3);
    BootFrame(phys, virt, pt, pt2, pt3, At(phys, k));
    BootFrame(phys, virt, pt, pt2, pt3, At(phys, 1));
    BootFrame(phys, virt, pt, pt2, pt3, At(phys, 4));
    BootFrame(phys, virt, pt, pt2, pt3, At(phys, 7));
    BootFrame(phys, virt, pt, pt2, pt3, At(phys, k + 1));
  }

  /** What the boot space translates: every page of the three leaf tables as its
      entry says, and no other page. */
  lemma BootTranslates(phys: Frame, virt: Vaddr, pt: seq<Entry>, pt2: seq<Entry>, pt3: seq<Entry>, p: Page)
    requires |pt| == 512 && |pt2| == 512 && |pt3| == 512 && ValidPage(p)
    ensures var m := BootForest(phys, virt, pt, pt2, pt3);
      && Shaped(m) && phys in m.vaddrOf
      && Walk(m, phys, p) ==
         if p[..3] == [511, 0, 0] then Translated(pt[p[3]])
         else if p[..3] == [511, 0, 1] then Translated(pt3[p[3]])
         else if p[..3] == [0, 0, 0] then Translated(pt2[p[3]])
         else None
  {
    hide BootForest, Descend;
    var m := BootForest(phys, virt, pt, pt2, pt3);
    BootTables(phys, virt, pt, pt2, pt3);
    BootDescend(phys, virt, pt, pt2, pt3, p);
    assert p[..3] == [p[0], p[1], p[2]];
    if LeafOf(p).Some? {
      BootFrame(phys, virt, pt, pt2, pt3, At(phys, LeafOf(p).value));
    }
  }

  function Translated(e: Entry): Option<Frame> {
    if e.present then Some(e.frame) else None
  }

  /** So the first two megabytes of the boot space translate as pt2 says. */
  lemma BootLower(phys: Frame, virt: Vaddr, pt: seq<Entry>, pt2: seq<Entry>, pt3: seq<Entry>, n: nat)
    requires |pt| == 512 && |pt2| == 512 && |pt3| == 512 && n < 512
    ensures var m := BootForest(phys, virt, pt, pt2, pt3);
      && Shaped(m) && phys in m.vaddrOf
      && Walk(m, phys, PageOf(n * 0x1000)) == if pt2[n].present then Some(pt2[n].frame) else None
  {
    hide Walk, BootForest;
    BootTranslates(phys, virt, pt, pt2, pt3, PageOf(n * 0x1000));
    assert PageOf(n * 0x1000) == [0, 0, 0, n];
    assert [0, 0, 0, n][..3] == [0, 0, 0];
    assert [0, 0, 0][0] != [511, 0, 0][0] && [0, 0, 0][0] != [511, 0, 1][0];
  }

  ghost function BootState(phys: Frame, virt: Vaddr, pt: seq<Entry>, pt2: seq<Entry>, pt3: seq<Entry>,
                           pmm: seq<Frame>): State
    requires |pt| == 512 && |pt2| == 512 && |pt3| == 512
  {
    State(BootForest(phys, virt, pt, pt2, pt3), WINDOW_INITIAL_LENGTH, phys, pmm)
  }

  /** The boot tables satisfy the invariant that every later step keeps. */
  lemma BootInv(phys: Frame, virt: Vaddr, pt: seq<Entry>, pt2: seq<Entry>, pt3: seq<Entry>, pmm: seq<Frame>)
    requires |pt| == 512 && |pt2| == 512 && |pt3| == 512
    requires virt + 0x7000 <= WINDOW_BASE && Spare(phys, pmm)
    ensures Inv(BootState(phys, virt, pt, pt2, pt3, pmm))
  {
    hide BootTable, BootPlace, Descend, Linked, RootsAgree, Unreferenced;
    var m := BootForest(phys, virt, pt, pt2, pt3);
    BootWellFormed(phys, virt, pt, pt2, pt3);
    forall i | 0 <= i < |pmm|
      ensures Unreferenced(m, pmm[i])
    {
      BootUnreferenced(phys, virt, pt, pt2, pt3, pmm[i]);
    }
  }

  /** In the boot state every directory entry names a known table, and there is
      room for exactly 249 more tables: the leaf table of the window serves
      them, and the next one does not exist. */
  lemma BootRoom(phys: Frame, virt: Vaddr, pt: seq<Entry>, pt2: seq<Entry>, pt3: seq<Entry>, pmm: seq<Frame>)
    requires |pt| == 512 && |pt2| == 512 && |pt3| == 512
    requires virt + 0x7000 <= WINDOW_BASE && Spare(phys, pmm)
    ensures var s := BootState(phys, virt, pt, pt2, pt3, pmm);
      && Inv(s) && FirstLeaf(s) && NoNextLeaf(s) && NoLaterLeaf(s) && Closed(s.m)
      && forall n: nat :: n <= |pmm| ==> (Room(s, n) <==> n <= 249)
  {
    hide BootForest, Descend, Inv, Closed, Room, WindowPage;
    var s := BootState(phys, virt, pt, pt2, pt3, pmm);
    BootInv(phys, virt, pt, pt2, pt3, pmm);
    WindowPageOf(0);
    assert WindowPage(0)[..3][0] == 511 && WindowPage(0)[..3][1] == 0 && WindowPage(0)[..3][2] == 1;
    BootDescend(phys, virt, pt, pt2, pt3, WindowPage(0));
    BootDescend(phys, virt, pt, pt2, pt3, NEXT_LEAF);
    BootLeaves(phys, virt, pt, pt2, pt3, pmm);
    BootLinked(phys, virt, pt, pt2, pt3);
    forall n: nat | n <= |pmm|
      ensures Room(s, n) <==> n <= 249
    {
      RoomLeft(s, n);
    }
  }

  lemma BootLeaves(phys: Frame, virt: Vaddr, pt: seq<Entry>, pt2: seq<Entry>, pt3: seq<Entry>, pmm: seq<Frame>)
    requires |pt| == 512 && |pt2| == 512 && |pt3| == 512
    requires Inv(BootState(phys, virt, pt, pt2, pt3, pmm))
    ensures NoLaterLeaf(BootState(phys, virt, pt, pt2, pt3, pmm))
  {
    hide BootForest, Descend, Inv;
    var s := BootState(phys, virt, pt, pt2, pt3, pmm);
    BootShaped(phys, virt, pt, pt2, pt3);
    forall q | ValidPage(q) && q[0] == KERNEL_SLOT && Descend(s.m, s.cur, q, 3).Some?
      ensures BootLeaf(q)
    {
      BootDescend(phys, virt, pt, pt2, pt3, q);
      assert q[..3] == [q[0], q[1], q[2]];
    }
  }

  lemma BootShaped(phys: Frame, virt: Vaddr, pt: seq<Entry>, pt2: seq<Entry>, pt3: seq<Entry>)
    requires |pt| == 512 && |pt2| == 512 && |pt3| == 512
    ensures var m := BootForest(phys, virt, pt, pt2, pt3); Shaped(m) && phys in m.vaddrOf
  {
    BootTables(phys, virt, pt, pt2, pt3);
    BootFrame(phys, virt, pt, pt2, pt3, phys);
  }

  /** The full window is reached: from the boot state 249 calls of `create_vmm`
      bring its length to 0xff000, and one more call consumes every frame that
      is left without writing anything. */
  method FillWindow(phys: Frame, virt: Vaddr, pt: seq<Entry>, pt2: seq<Entry>, pt3: seq<Entry>, pmm: seq<Frame>)
    returns (pager: Pager, last: Option<Frame>, ghost full: State)
    requires |pt| == 512 && |pt2| == 512 && |pt3| == 512
    requires virt + 0x7000 <= WINDOW_BASE && Spare(phys, pmm) && |pmm| >= 249
    ensures fresh(pager) && Inv(full) && full.len == 0xff000 && !Room(full, 1)
    ensures |full.pmm| == |pmm| - 249
    ensures last == None && pager.pmm == [] && pager.Now().m == full.m
  {
    hide Shaped, Linked, RootsAgree, FreshFrames, BootForest, Created, Room, FirstLeaf, NoLaterLeaf, NoNextLeaf, Closed, Contiguous, Spare;
    BootRoom(phys, virt, pt, pt2, pt3, pmm);
    pager := VmmInit(phys, virt, pt, pt2, pt3, pmm);
    var i := 0;
    while i < 249
      invariant 0 <= i <= 249 && fresh(pager) && pager.Valid()
      invariant pager.Now().len == WINDOW_INITIAL_LENGTH + i * 0x1000 && |pager.pmm| == |pmm| - i
      invariant FirstLeaf(pager.Now()) && NoLaterLeaf(pager.Now()) && Closed(pager.Now().m)
    {
      ghost var s := pager.Now();
      FirstLeafContiguous(s);
      RoomLeft(s, 1);
      var root := pager.CreateNewPml4t();
      CreateLeaves(s, pager.Now(), root.value);
      i := i + 1;
    }
    full := pager.Now();
    FirstLeafContiguous(full);
    WindowFull(full);
    last := pager.CreateNewPml4t();
  }

  lemma CreateLeaves(s: State, s': State, g: Frame)
    requires Created(s, s', g) && FirstLeaf(s) && NoLaterLeaf(s) && Closed(s.m)
    ensures FirstLeaf(s') && NoLaterLeaf(s') && Closed(s'.m)
    ensures s'.len == s.len + 0x1000 && |s'.pmm| == |s.pmm| - 1
  {
    hide Inv, FirstLeaf, NoLaterLeaf, NoNextLeaf, Closed, Walk, SameDirectories;
    FirstLeafContiguous(s);
    StepLeaves(s, s', Create(g));
    StepLaterLeaves(s, s', Create(g));
    RoomFrames(s, 1);
  }

  lemma WindowFull(s: State)
    requires Inv(s) && FirstLeaf(s) && NoNextLeaf(s) && s.len == 0xff000
    ensures !Room(s, 1)
  {
    hide WellFormed, FreshFrames, FirstLeaf, NoNextLeaf, LeafReady;
    if |s.pmm| >= 1 {
      RoomLeft(s, 1);
    }
  }

  lemma BootUnreferenced(phys: Frame, virt: Vaddr, pt: seq<Entry>, pt2: seq<Entry>, pt3: seq<Entry>, g: Frame)
    requires |pt| == 512 && |pt2| == 512 && |pt3| == 512 && !IsBoot(phys, g)
    ensures var m := BootForest(phys, virt, pt, pt2, pt3);
      Shaped(m) && Unreferenced(m, g)
  {
    hide BootForest, Table;
    var m := BootForest(phys, virt, pt, pt2, pt3);
    BootTables(phys, virt, pt, pt2, pt3);
    forall f, j | f in m.vaddrOf && 0 <= j < 512 && |m.place[f].path| < 3 && Table(m, f)[j].present
      ensures Table(m, f)[j].frame != g
    {
      BootLeads(phys, virt, pt, pt2, pt3, f, j);
    }
  }

  /** `vmm_init`: the eight boot tables entered in the hashmap. */
  method VmmInit(phys: Frame, virt: Vaddr, pt: seq<Entry>, pt2: seq<Entry>, pt3: seq<Entry>, pmm: seq<Frame>)
    returns (pager: Pager)
    requires |pt| == 512 && |pt2| == 512 && |pt3| == 512
    requires virt + 0x7000 <= WINDOW_BASE && Spare(phys, pmm)
    ensures fresh(pager) && pager.Valid()
    ensures pager.Now() == BootState(phys, virt, pt, pt2, pt3, pmm)
    ensures forall n :: 0 <= n < 512 ==>
      Walk(pager.Now().m, phys, PageOf(n * 0x1000)) == if pt2[n].present then Some(pt2[n].frame) else None
  {
    hide Inv, BootForest;
    BootInv(phys, virt, pt, pt2, pt3, pmm);
    var m := BootForest(phys, virt, pt, pt2, pt3);
    BootFields(phys, virt, pt, pt2, pt3);
    pager := new Pager(m.tables, m.vaddrOf, phys, pmm, m.place);
    BootShaped(phys, virt, pt, pt2, pt3);
    forall n | 0 <= n < 512
      ensures Walk(m, phys, PageOf(n * 0x1000)) == if pt2[n].present then Some(pt2[n].frame) else None
    {
      BootLower(phys, virt, pt, pt2, pt3, n);
    }
  }

  lemma BootFields(phys: Frame, virt: Vaddr, pt: seq<Entry>, pt2: seq<Entry>, pt3: seq<Entry>)
    requires |pt| == 512 && |pt2| == 512 && |pt3| == 512
    ensures BootForest(phys, virt, pt, pt2, pt3).roots == {phys}
  {
  }

  /** With the kernel image mapped as the boot code maps it, the eight tables
      are reachable at the addresses `vmm_init` records. */
  lemma BootSelfMapped(phys: Frame, first: nat, pt: seq<Entry>, pt2: seq<Entry>, pt3: seq<Entry>)
    requires |pt| == 512 && |pt2| == 512 && |pt3| == 512 && first + 8 <= 512
    requires forall k :: 0 <= k < 8 ==> pt[first + k] == Entry(true, At(phys, k))
    ensures var m := BootForest(phys, KERNEL_TEXT_START + first * 0x1000, pt, pt2, pt3);
      WellFormed(m) && SelfMapped(m)
  {
    hide BootForest, Index, WellFormed, Shaped, Walk;
    var virt := KERNEL_TEXT_START + first * 0x1000;
    var m := BootForest(phys, virt, pt, pt2, pt3);
    BootWellFormed(phys, virt, pt, pt2, pt3);
    forall f, r | f in m.vaddrOf && r in m.roots
      ensures SelfMappedIn(m, f, r)
    {
      BootFrame(phys, virt, pt, pt2, pt3, f);
      BootFields(phys, virt, pt, pt2, pt3);
      var k := Ordinal(phys, f);
      BootPage(first + k);
      BootWalk(phys, virt, pt, pt2, pt3, first + k);
    }
  }

  lemma BootWalk(phys: Frame, virt: Vaddr, pt: seq<Entry>, pt2: seq<Entry>, pt3: seq<Entry>, i: nat)
    requires |pt| == 512 && |pt2| == 512 && |pt3| == 512 && i < 512 && pt[i].present
    ensures var m := BootForest(phys, virt, pt, pt2, pt3);
      Shaped(m) && phys in m.vaddrOf && Walk(m, phys, [511, 0, 0, i]) == Some(pt[i].frame)
  {
    hide BootForest, Walk;
    BootTranslates(phys, virt, pt, pt2, pt3, [511, 0, 0, i]);
    assert [511, 0, 0, i][..3] == [511, 0, 0];
  }

  lemma BootPage(n: nat)
    requires n < 512
    ensures PageOf(KERNEL_TEXT_START + n * 0x1000) == [511, 0, 0, n]
    ensures Canonical(KERNEL_TEXT_START + n * 0x1000)
  {
    hide Index;
    KernelIndices(n * 0x1000);
  }

  /** The pages of the kernel layout: which entries of which leaf tables. */
  lemma LayoutPages()
    ensures PageOf(KERNEL_TEXT_START) == [511, 0, 0, 0]
    ensures PageOf(VGA_TEXT_BUFFER_BASE) == [511, 0, 0, 0xc0] && PageOf(KERNEL_PMM_START) == [511, 0, 0, 0xe8]
    ensures PageOf(KERNEL_HEAP_START) == [511, 0, 1, 0] && PageOf(KERNEL_STACK_START) == [511, 0, 1, 0xfe]
    ensures PageOf(KERNEL_PAGE_TBL_START) == [511, 0, 1, 0x100] && KERNEL_STACK_SIZE == 2 * 0x1000
  {
    hide Index;
    KernelIndices(0);
    KernelIndices(0xc_0000);
    KernelIndices(0xe_8000);
    KernelIndices(0x20_0000);
    KernelIndices(0x2f_e000);
    KernelIndices(0x30_0000);
  }

  /** The static regions, as addresses and lengths; the last one is the window. */
  lemma LayoutRegions(kernelBytes: nat)
    ensures var es := RegionSpec.KernelExtents(kernelBytes);
      && |es| == 4 && es[0] == RegionSpec.Extent(0xffff_ff80_0000_0000, kernelBytes)
      && es[1] == RegionSpec.Extent(0xffff_ff80_000c_0000, 0x1000)
      && es[2] == RegionSpec.Extent(0xffff_ff80_000e_8000, 0x1000)
      && es[3] == RegionSpec.Extent(WINDOW_BASE, WINDOW_INITIAL_LENGTH) && es[3].length == 6 * 0x1000
  {
  }
}
