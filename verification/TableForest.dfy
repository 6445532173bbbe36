/** The page tables of every address space as one forest, and the walk the
    processor performs over it (section 5.3, Long-Mode Page Translation, of the
    AMD64 Architecture Programmer's Manual, Volume 2). */
module TableForest {
  import opened Common
  import opened Address

  /** Who a table serves: one address space, or all of them (below slot 511). */
  datatype Owner = Kernel | Space(root: Frame)

  /** The position of a table: its owner and the indices leading to it. */
  datatype Place = Place(owner: Owner, path: seq<nat>)

  const KERNEL_SLOT := 511

  ghost function Child(p: Place, i: nat): Place {
    if p.path == [] && i == KERNEL_SLOT then Place(Kernel, [i])
    else Place(p.owner, p.path + [i])
  }

  ghost function RootPlace(r: Frame): Place { Place(Space(r), []) }

  /** `tables` is memory, keyed by the virtual address at which the kernel
      reaches a table; `vaddrOf` is the phys-to-virt hashmap; `place` records
      where each known table hangs; `roots` are the PML4s of all spaces. */
  datatype Forest = Forest(
    tables: map<Vaddr, seq<Entry>>,
    vaddrOf: map<Frame, Vaddr>,
    place: map<Frame, Place>,
    roots: set<Frame>)

  /** Every known table has 512 entries at an address of its own. */
  ghost predicate Shaped(m: Forest) {
    && m.place.Keys == m.vaddrOf.Keys
    && (forall f :: f in m.vaddrOf ==>
          m.vaddrOf[f] in m.tables && |m.tables[m.vaddrOf[f]]| == 512)
    && (forall f, g :: f in m.vaddrOf && g in m.vaddrOf && m.vaddrOf[f] == m.vaddrOf[g] ==> f == g)
    && (forall f :: f in m.place ==> |m.place[f].path| <= 3)
  }

  ghost function Table(m: Forest, f: Frame): (t: seq<Entry>)
    requires Shaped(m) && f in m.vaddrOf
    ensures |t| == 512
  {
    m.tables[m.vaddrOf[f]]
  }

  /** A present directory entry that the hashmap knows leads to the table
      hanging at that position. */
  ghost predicate Linked(m: Forest)
    requires Shaped(m)
  {
    forall f, i :: f in m.vaddrOf && 0 <= i < 512 && |m.place[f].path| < 3 ==>
      var e := Table(m, f)[i];
      e.present && e.frame in m.vaddrOf ==> m.place[e.frame] == Child(m.place[f], i)
  }

  /** All roots are tables, and all hold the same kernel entry. */
  ghost predicate RootsAgree(m: Forest)
    requires Shaped(m)
  {
    && (forall r :: r in m.roots ==> r in m.vaddrOf && m.place[r] == RootPlace(r))
    && (forall r :: r in m.roots ==> Table(m, r)[511].present)
    && (forall r, s :: r in m.roots && s in m.roots ==> Table(m, r)[511] == Table(m, s)[511])
  }

  ghost predicate WellFormed(m: Forest) {
    Shaped(m) && Linked(m) && RootsAgree(m)
  }

  /** One step of the walk: the table an entry leads to. */
  ghost function Step(m: Forest, f: Frame, i: nat): (g: Option<Frame>)
    requires Shaped(m) && f in m.vaddrOf && i < 512
    ensures g.Some? ==> g.value in m.vaddrOf
  {
    var e := Table(m, f)[i];
    if e.present && e.frame in m.vaddrOf then Some(e.frame) else None
  }

  /** The table reached from root r after following k indices of page p. */
  ghost function Descend(m: Forest, r: Frame, p: Page, k: nat): (g: Option<Frame>)
    requires Shaped(m) && r in m.vaddrOf && ValidPage(p) && k <= 3
    ensures g.Some? ==> g.value in m.vaddrOf
  {
    if k == 0 then Some(r)
    else match Descend(m, r, p, k - 1)
      case None => None
      case Some(f) => Step(m, f, p[k - 1])
  }

  /** The translation of page p in the space rooted at r. */
  ghost function Walk(m: Forest, r: Frame, p: Page): Option<Frame>
    requires Shaped(m) && r in m.vaddrOf && ValidPage(p)
  {
    match Descend(m, r, p, 3)
    case None => None
    case Some(f) => if Table(m, f)[p[3]].present then Some(Table(m, f)[p[3]].frame) else None
  }

  /** Where a table reached by following k indices must hang. */
  ghost function PlaceAt(r: Frame, p: Page, k: nat): Place
    requires ValidPage(p) && k <= 3
  {
    Place(if k > 0 && p[0] == KERNEL_SLOT then Kernel else Space(r), p[..k])
  }

  lemma {:induction false} DescendPlace(m: Forest, r: Frame, p: Page, k: nat)
    requires WellFormed(m) && r in m.roots && ValidPage(p) && k <= 3
    requires Descend(m, r, p, k).Some?
    ensures m.place[Descend(m, r, p, k).value] == PlaceAt(r, p, k)
  {
    if k > 0 {
      DescendPlace(m, r, p, k - 1);
      assert p[..k] == p[..k - 1] + [p[k - 1]];
    }
  }

  /** Below slot 511 every space descends through the same tables. */
  lemma {:induction false} SharedDescend(m: Forest, r: Frame, s: Frame, p: Page, k: nat)
    requires WellFormed(m) && r in m.roots && s in m.roots
    requires ValidPage(p) && p[0] == KERNEL_SLOT && 1 <= k <= 3
    ensures Descend(m, r, p, k) == Descend(m, s, p, k)
  {
    if k == 1 {
      assert Descend(m, r, p, 0) == Some(r) && Descend(m, s, p, 0) == Some(s);
    } else {
      SharedDescend(m, r, s, p, k - 1);
    }
  }

  /** All address spaces translate every kernel address identically. */
  lemma KernelHalfShared(m: Forest, r: Frame, s: Frame, p: Page)
    requires WellFormed(m) && r in m.roots && s in m.roots
    requires ValidPage(p) && p[0] == KERNEL_SLOT
    ensures Walk(m, r, p) == Walk(m, s, p)
  {
    SharedDescend(m, r, s, p, 3);
  }

  // ---------------------------------------------------------------- updates

  /** The only table write there is: one entry of one table. */
  function Write(m: Forest, v: Vaddr, i: nat, e: Entry): Forest
    requires v in m.tables && i < |m.tables[v]|
  {
    m.(tables := m.tables[v := m.tables[v][i := e]])
  }

  lemma WriteTables(m: Forest, f: Frame, i: nat, e: Entry)
    requires Shaped(m) && f in m.vaddrOf && i < 512
    ensures var m' := Write(m, m.vaddrOf[f], i, e);
      && Shaped(m')
      && Table(m', f) == Table(m, f)[i := e]
      && forall g :: g in m.vaddrOf && g != f ==> Table(m', g) == Table(m, g)
  {
  }

  /** No directory entry leads to g, whether or not the hashmap knows g. */
  ghost predicate Unreferenced(m: Forest, g: Frame)
    requires Shaped(m)
  {
    forall f, i :: f in m.vaddrOf && 0 <= i < 512 && |m.place[f].path| < 3 ==>
      !(Table(m, f)[i].present && Table(m, f)[i].frame == g)
  }

  /** m' keeps every directory of m, and no directory of m leads to a table
      that only m' knows. Leaf tables may differ. */
  ghost predicate SameDirectories(m: Forest, m': Forest) {
    && Shaped(m) && Shaped(m')
    && (forall f :: f in m.vaddrOf ==>
          && f in m'.vaddrOf && m'.vaddrOf[f] == m.vaddrOf[f] && m'.place[f] == m.place[f]
          && (|m.place[f].path| < 3 ==> Table(m', f) == Table(m, f)))
    && (forall g :: g in m'.vaddrOf && g !in m.vaddrOf ==> Unreferenced(m, g))
  }

  /** Directories that are kept lead to the same tables. */
  lemma StepSame(m: Forest, m': Forest, f: Frame, i: nat)
    requires SameDirectories(m, m') && f in m.vaddrOf && |m.place[f].path| < 3 && i < 512
    ensures Shaped(m') && f in m'.vaddrOf && Step(m', f, i) == Step(m, f, i)
  {
  }

  lemma SameShaped(m: Forest, m': Forest, r: Frame)
    requires SameDirectories(m, m') && WellFormed(m) && r in m.roots
    ensures Shaped(m') && r in m.vaddrOf && r in m'.vaddrOf
  {
  }

  /** Descents depend on the directories only. */
  lemma {:induction false} DescendSame(m: Forest, m': Forest, r: Frame, p: Page, k: nat)
    requires WellFormed(m) && SameDirectories(m, m')
    requires r in m.roots && ValidPage(p) && k <= 3
    ensures Shaped(m') && r in m'.vaddrOf && Descend(m', r, p, k) == Descend(m, r, p, k)
  {
    hide Linked, RootsAgree, SameDirectories, Step;
    SameShaped(m, m', r);
    if k > 0 {
      DescendSame(m, m', r, p, k - 1);
      if Descend(m, r, p, k - 1).Some? {
        DescendPlace(m, r, p, k - 1);
        StepSame(m, m', Descend(m, r, p, k - 1).value, p[k - 1]);
      }
    }
  }

  /** Descents depend on the indices followed so far only. */
  lemma {:induction false} DescendPrefix(m: Forest, r: Frame, p: Page, q: Page, k: nat)
    requires Shaped(m) && r in m.vaddrOf && ValidPage(p) && ValidPage(q) && k <= 3
    requires p[..k] == q[..k]
    ensures Descend(m, r, p, k) == Descend(m, r, q, k)
  {
    if k > 0 {
      assert p[..k][k - 1] == q[..k][k - 1];
      assert p[..k][..k - 1] == p[..k - 1] && q[..k][..k - 1] == q[..k - 1];
      DescendPrefix(m, r, p, q, k - 1);
    }
  }

  lemma LeafWriteDescend(m: Forest, f: Frame, i: nat, e: Entry, r: Frame, p: Page)
    requires WellFormed(m) && f in m.vaddrOf && |m.place[f].path| == 3 && i < 512
    requires r in m.roots && ValidPage(p)
    ensures var m' := Write(m, m.vaddrOf[f], i, e);
      SameDirectories(m, m') && Descend(m', r, p, 3) == Descend(m, r, p, 3)
  {
    WriteTables(m, f, i, e);
    DescendSame(m, Write(m, m.vaddrOf[f], i, e), r, p, 3);
  }

  lemma LeafWriteWellFormed(m: Forest, f: Frame, i: nat, e: Entry)
    requires WellFormed(m) && f in m.vaddrOf && |m.place[f].path| == 3 && i < 512
    ensures WellFormed(Write(m, m.vaddrOf[f], i, e))
  {
    WriteTables(m, f, i, e);
  }

  /** A leaf table serves one triple of indices, in one space or in all. */
  lemma SameLeaf(m: Forest, r: Frame, p: Page, s: Frame, q: Page)
    requires WellFormed(m) && r in m.roots && s in m.roots && ValidPage(p) && ValidPage(q)
    requires Descend(m, r, p, 3).Some? && Descend(m, r, p, 3) == Descend(m, s, q, 3)
    ensures p[3] == q[3] ==> p == q
    ensures p[0] == q[0] && (r == s || p[0] == KERNEL_SLOT)
  {
    hide WellFormed, Descend;
    DescendPlace(m, r, p, 3);
    DescendPlace(m, s, q, 3);
    SamePrefix(p, q);
  }

  lemma SamePrefix(p: Page, q: Page)
    requires ValidPage(p) && ValidPage(q) && p[..3] == q[..3]
    ensures p[0] == q[0] && (p[3] == q[3] ==> p == q)
  {
    assert p[0] == p[..3][0] && q[0] == q[..3][0];
    assert p == p[..3] + [p[3]] && q == q[..3] + [q[3]];
  }

  lemma LeafEntryWalk(m: Forest, f: Frame, i: nat, x: Frame, r: Frame, p: Page)
    requires WellFormed(m) && f in m.vaddrOf && |m.place[f].path| == 3 && i < 512
    requires r in m.roots && ValidPage(p)
    ensures var m' := Write(m, m.vaddrOf[f], i, Entry(true, x));
      && Shaped(m')
      && Walk(m', r, p) == if Descend(m, r, p, 3) == Some(f) && p[3] == i then Some(x) else Walk(m, r, p)
  {
    WriteTables(m, f, i, Entry(true, x));
    LeafWriteDescend(m, f, i, Entry(true, x), r, p);
  }

  /** Writing a leaf entry through the path of `page` in space `cur` changes
      the translation of that page only, in that space, or in every space when
      the page is a kernel page. */
  lemma LeafWriteWalk(m: Forest, cur: Frame, page: Page, f: Frame, x: Frame, r: Frame, p: Page)
    requires WellFormed(m) && cur in m.roots && ValidPage(page)
    requires Descend(m, cur, page, 3) == Some(f)
    requires r in m.roots && ValidPage(p)
    ensures |m.place[f].path| == 3
    ensures var m' := Write(m, m.vaddrOf[f], page[3], Entry(true, x));
      && Shaped(m')
      && Walk(m', r, p) ==
         if p == page && (r == cur || page[0] == KERNEL_SLOT) then Some(x) else Walk(m, r, p)
  {
    DescendPlace(m, cur, page, 3);
    LeafEntryWalk(m, f, page[3], x, r, p);
    SameLeafIff(m, cur, page, f, r, p);
  }

  lemma SameLeafIff(m: Forest, cur: Frame, page: Page, f: Frame, r: Frame, p: Page)
    requires WellFormed(m) && cur in m.roots && r in m.roots && ValidPage(page) && ValidPage(p)
    requires Descend(m, cur, page, 3) == Some(f)
    ensures (Descend(m, r, p, 3) == Some(f) && p[3] == page[3])
       <==> (p == page && (r == cur || page[0] == KERNEL_SLOT))
  {
    if Descend(m, r, p, 3) == Some(f) {
      SameLeaf(m, cur, page, r, p);
    }
    if p == page && page[0] == KERNEL_SLOT {
      SharedDescend(m, r, cur, p, 3);
    }
  }

  ghost predicate Empty(m: Forest, g: Frame)
    requires Shaped(m) && g in m.vaddrOf
  {
    forall i :: 0 <= i < 512 ==> !Table(m, g)[i].present
  }

  /** Hanging table g at entry i of f: the step from there leads to g, and all
      other steps are as before. */
  lemma LinkedStep(m: Forest, f: Frame, i: nat, g: Frame, h: Frame, j: nat)
    requires Shaped(m) && f in m.vaddrOf && g in m.vaddrOf && h in m.vaddrOf && i < 512 && j < 512
    ensures var m' := Write(m, m.vaddrOf[f], i, Entry(true, g));
      Shaped(m') && Step(m', h, j) == if h == f && j == i then Some(g) else Step(m, h, j)
  {
    WriteTables(m, f, i, Entry(true, g));
  }

  lemma EmptyStep(m: Forest, g: Frame, j: nat)
    requires Shaped(m) && g in m.vaddrOf && Empty(m, g) && j < 512
    ensures Step(m, g, j) == None
  {
  }

  lemma AbsentStep(m: Forest, f: Frame, i: nat)
    requires Shaped(m) && f in m.vaddrOf && i < 512 && !Table(m, f)[i].present
    ensures Step(m, f, i) == None
  {
  }

  /** Hanging an empty table at an absent entry: each descent is as before or
      now ends at that table where it found nothing. */
  lemma {:induction false} LinkDescend(m: Forest, f: Frame, i: nat, g: Frame, r: Frame, p: Page, k: nat)
    requires Shaped(m) && f in m.vaddrOf && g in m.vaddrOf && f != g && i < 512
    requires !Table(m, f)[i].present && Empty(m, g)
    requires r in m.vaddrOf && ValidPage(p) && k <= 3
    ensures var m' := Write(m, m.vaddrOf[f], i, Entry(true, g));
      && Shaped(m')
      && (Descend(m', r, p, k) == Descend(m, r, p, k)
          || (Descend(m, r, p, k) == None && Descend(m', r, p, k) == Some(g)))
  {
    hide Empty, Step, Shaped;
    WriteTables(m, f, i, Entry(true, g));
    if k > 0 {
      LinkDescend(m, f, i, g, r, p, k - 1);
      EmptyStep(m, g, p[k - 1]);
      AbsentStep(m, f, i);
      LinkedStep(m, f, i, g, g, p[k - 1]);
      if Descend(m, r, p, k - 1).Some? {
        LinkedStep(m, f, i, g, Descend(m, r, p, k - 1).value, p[k - 1]);
      }
    }
  }

  lemma LinkWalk(m: Forest, f: Frame, i: nat, g: Frame, r: Frame, p: Page)
    requires WellFormed(m) && f in m.vaddrOf && g in m.vaddrOf && f != g && i < 512
    requires !Table(m, f)[i].present && Empty(m, g)
    requires |m.place[f].path| < 3
    requires r in m.roots && ValidPage(p)
    ensures var m' := Write(m, m.vaddrOf[f], i, Entry(true, g));
      Shaped(m') && Walk(m', r, p) == Walk(m, r, p)
  {
    WriteTables(m, f, i, Entry(true, g));
    LinkDescend(m, f, i, g, r, p, 3);
    if Descend(m, r, p, 3).Some? {
      DescendPlace(m, r, p, 3);
    }
  }

  lemma LinkWellFormed(m: Forest, f: Frame, i: nat, g: Frame)
    requires WellFormed(m) && f in m.vaddrOf && g in m.vaddrOf && i < 512
    requires !Table(m, f)[i].present
    requires |m.place[f].path| < 3 && m.place[g] == Child(m.place[f], i)
    ensures WellFormed(Write(m, m.vaddrOf[f], i, Entry(true, g)))
  {
    WriteTables(m, f, i, Entry(true, g));
  }

  /** What `memset` and `pg_tbl_insert` do for a new table. */
  function AddTable(m: Forest, g: Frame, v: Vaddr, pl: Place): Forest {
    m.(tables := m.tables[v := seq(512, _ => NO_ENTRY)],
       vaddrOf := m.vaddrOf[g := v],
       place := m.place[g := pl])
  }

  lemma AddTableTables(m: Forest, g: Frame, v: Vaddr, pl: Place)
    requires Shaped(m) && g !in m.vaddrOf && v !in m.vaddrOf.Values && |pl.path| <= 3
    ensures var m' := AddTable(m, g, v, pl);
      && Shaped(m') && Empty(m', g)
      && forall f :: f in m.vaddrOf ==> Table(m', f) == Table(m, f)
  {
    forall f | f in m.vaddrOf
      ensures m.vaddrOf[f] != v
    {
      assert m.vaddrOf[f] in m.vaddrOf.Values;
    }
  }

  lemma AddTableWellFormed(m: Forest, g: Frame, v: Vaddr, pl: Place)
    requires WellFormed(m) && g !in m.vaddrOf && v !in m.vaddrOf.Values && |pl.path| <= 3
    requires Unreferenced(m, g)
    ensures WellFormed(AddTable(m, g, v, pl))
  {
    AddTableTables(m, g, v, pl);
  }

  lemma AddTableSame(m: Forest, g: Frame, v: Vaddr, pl: Place)
    requires Shaped(m) && g !in m.vaddrOf && v !in m.vaddrOf.Values && |pl.path| <= 3 && Unreferenced(m, g)
    ensures SameDirectories(m, AddTable(m, g, v, pl))
  {
    AddTableTables(m, g, v, pl);
  }

  lemma AddTableWalk(m: Forest, g: Frame, v: Vaddr, pl: Place, r: Frame, p: Page)
    requires WellFormed(m) && g !in m.vaddrOf && v !in m.vaddrOf.Values && |pl.path| <= 3
    requires Unreferenced(m, g) && r in m.roots && ValidPage(p)
    ensures var m' := AddTable(m, g, v, pl);
      Shaped(m') && Walk(m', r, p) == Walk(m, r, p)
  {
    hide Linked, Unreferenced, SameDirectories, Descend, AddTable;
    AddTableTables(m, g, v, pl);
    AddTableSame(m, g, v, pl);
    DescendSame(m, AddTable(m, g, v, pl), r, p, 3);
  }

  // ------------------------------------------- which tables a descent finds

  /** Following k indices of q in space s stays on the path of `page` in r. */
  ghost predicate OnPath(s: Frame, q: Page, k: nat, r: Frame, page: Page)
    requires ValidPage(q) && ValidPage(page) && k <= 3
  {
    q[..k] == page[..k] && (s == r || page[0] == KERNEL_SLOT)
  }

  ghost predicate GrewAt(m: Forest, m': Forest, r: Frame, page: Page, s: Frame, q: Page, k: nat)
    requires Shaped(m) && Shaped(m') && s in m.vaddrOf && s in m'.vaddrOf
    requires ValidPage(page) && ValidPage(q) && k <= 3
  {
    || Descend(m', s, q, k) == Descend(m, s, q, k)
    || (Descend(m, s, q, k) == None && OnPath(s, q, k, r, page))
  }

  /** Every descent finds in m' the table it finds in m; where it finds none in
      m it finds none in m', except on the path of `page` in space r. */
  ghost predicate Grew(m: Forest, m': Forest, r: Frame, page: Page)
    requires Shaped(m) && Shaped(m') && ValidPage(page)
  {
    && m'.roots == m.roots && m.roots <= m.vaddrOf.Keys && m.roots <= m'.vaddrOf.Keys
    && forall s, q, k :: s in m.roots && ValidPage(q) && 0 <= k <= 3 ==> GrewAt(m, m', r, page, s, q, k)
  }

  lemma GrewFact(m: Forest, m': Forest, r: Frame, page: Page, s: Frame, q: Page, k: nat)
    requires Shaped(m) && Shaped(m') && ValidPage(page) && Grew(m, m', r, page)
    requires s in m.roots && ValidPage(q) && k <= 3
    ensures s in m.vaddrOf && s in m'.vaddrOf
    ensures Descend(m', s, q, k) == Descend(m, s, q, k)
         || (Descend(m, s, q, k) == None && OnPath(s, q, k, r, page))
  {
    assert GrewAt(m, m', r, page, s, q, k);
  }

  lemma GrewTrans(m: Forest, m1: Forest, m2: Forest, r: Frame, page: Page)
    requires Shaped(m) && Shaped(m1) && Shaped(m2) && ValidPage(page)
    requires Grew(m, m1, r, page) && Grew(m1, m2, r, page)
    ensures Grew(m, m2, r, page)
  {
    hide Descend, Shaped;
    forall s, q, k: nat | s in m.roots && ValidPage(q) && k <= 3
      ensures GrewAt(m, m2, r, page, s, q, k)
    {
      GrewFact(m, m1, r, page, s, q, k);
      GrewFact(m1, m2, r, page, s, q, k);
    }
  }

  lemma SameGrew(m: Forest, m': Forest, r: Frame, page: Page)
    requires WellFormed(m) && SameDirectories(m, m') && m'.roots == m.roots && ValidPage(page)
    ensures Shaped(m') && Grew(m, m', r, page)
  {
    hide Linked, SameDirectories, Descend, Shaped;
    SameRoots(m, m');
    forall s, q, k: nat | s in m.roots && ValidPage(q) && k <= 3
      ensures GrewAt(m, m', r, page, s, q, k)
    {
      DescendSame(m, m', s, q, k);
    }
  }

  lemma SameRoots(m: Forest, m': Forest)
    requires WellFormed(m) && SameDirectories(m, m')
    ensures Shaped(m') && m.roots <= m.vaddrOf.Keys && m.roots <= m'.vaddrOf.Keys
  {
  }

  /** Hanging a table on the path of `page` changes descents on that path only. */
  lemma LinkGrew(m: Forest, r: Frame, page: Page, k: nat, f: Frame, g: Frame)
    requires WellFormed(m) && r in m.roots && ValidPage(page) && k < 3
    requires Descend(m, r, page, k) == Some(f) && g in m.vaddrOf && f != g
    requires !Table(m, f)[page[k]].present && Empty(m, g)
    requires m.place[g] == Child(m.place[f], page[k])
    ensures var m' := Write(m, m.vaddrOf[f], page[k], Entry(true, g));
      Shaped(m') && Grew(m, m', r, page)
  {
    hide Linked, Descend, Empty;
    var m' := Write(m, m.vaddrOf[f], page[k], Entry(true, g));
    DescendPlace(m, r, page, k);
    LinkWellFormed(m, f, page[k], g);
    ChildPlace(r, page, k);
    forall s, q, j: nat | s in m.roots && ValidPage(q) && j <= 3
      ensures GrewAt(m, m', r, page, s, q, j)
    {
      LinkDescend(m, f, page[k], g, s, q, j);
      if Descend(m', s, q, j) != Descend(m, s, q, j) {
        DescendPlace(m', s, q, j);
        SamePlace(s, q, j, r, page, k + 1);
      }
    }
  }

  lemma ChildPlace(r: Frame, page: Page, k: nat)
    requires ValidPage(page) && k < 3
    ensures Child(PlaceAt(r, page, k), page[k]) == PlaceAt(r, page, k + 1)
  {
    assert page[..k + 1] == page[..k] + [page[k]];
    if k == 0 {
      assert page[..0] == [] && page[..1] == [page[0]];
    }
  }

  lemma SamePlace(s: Frame, q: Page, j: nat, r: Frame, page: Page, k: nat)
    requires ValidPage(q) && ValidPage(page) && j <= 3 && 1 <= k <= 3
    requires PlaceAt(s, q, j) == PlaceAt(r, page, k)
    ensures j == k && OnPath(s, q, j, r, page)
  {
    assert |q[..j]| == j && |page[..k]| == k;
    assert q[..j][0] == q[0] && page[..k][0] == page[0];
  }

  // ------------------------------------------------------ known directories

  /** Every present directory entry names a table the hashmap knows. */
  ghost predicate Closed(m: Forest)
    requires Shaped(m)
  {
    forall f, i :: f in m.vaddrOf && 0 <= i < 512 && |m.place[f].path| < 3 ==>
      (Table(m, f)[i].present ==> Table(m, f)[i].frame in m.vaddrOf)
  }

  lemma LinkClosed(m: Forest, f: Frame, i: nat, g: Frame)
    requires Shaped(m) && Closed(m) && f in m.vaddrOf && g in m.vaddrOf && i < 512
    ensures var m' := Write(m, m.vaddrOf[f], i, Entry(true, g));
      Shaped(m') && Closed(m')
  {
    WriteTables(m, f, i, Entry(true, g));
  }

  /** Keeping the directories and adding empty tables keeps them closed. */
  lemma SameClosed(m: Forest, m': Forest)
    requires Shaped(m) && Closed(m) && SameDirectories(m, m')
    requires forall g :: g in m'.vaddrOf && g !in m.vaddrOf ==> Empty(m', g)
    ensures Closed(m')
  {
  }
}
