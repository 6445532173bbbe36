/** `mmap`, `alloc_pg_table`, `create_new_pml4t` and `switch_vm_space`. */
module PageTables {
  import opened Common
  import opened Address
  import opened TableForest

  const WINDOW_BASE: Vaddr := KERNEL_PAGE_TBL_START
  const WINDOW_INITIAL_LENGTH := 0x6000
  const ADDRESS_SPACE := 0x1_0000_0000_0000_0000

  /** `len` is kernel_page_tbls_obj.length, `cur` the root in use, and `pmm`
      the frames that `pmm_alloc_page` will hand out, in order. */
  datatype State = State(m: Forest, len: nat, cur: Frame, pmm: seq<Frame>)

  /** The page at which the window of length `len` ends. */
  ghost function WindowPage(len: nat): (p: Page)
    ensures ValidPage(p)
  {
    PageOf(WINDOW_BASE + len)
  }

  /** The window is part of the kernel half up to the last address. */
  lemma WindowKernel(len: nat)
    requires WINDOW_BASE + len < ADDRESS_SPACE
    ensures WindowPage(len)[0] == KERNEL_SLOT && Canonical(WINDOW_BASE + len)
  {
    var a := WINDOW_BASE + len;
    DivUnique(a, 0x80_0000_0000, 0x1ff_ffff, a - 0x1ff_ffff * 0x80_0000_0000);
  }

  /** The leaf tables under which the window passes: the one the boot code made
      serves exactly the lengths below 1 MiB, the next one those below 3 MiB. */
  lemma WindowPageOf(len: nat)
    requires len < 0x8000_0000
    ensures WindowPage(len)[..3] == [511, 0, 1] <==> len < 0x10_0000
    ensures WindowPage(len)[..3] == [511, 0, 2] <==> 0x10_0000 <= len < 0x30_0000
  {
    hide Index;
    var a := WINDOW_BASE + len;
    KernelIndices(0x30_0000 + len);
    assert KERNEL_TEXT_START + (0x30_0000 + len) == a;
    assert WindowPage(len)[..3] == [Index(a, 3), Index(a, 2), Index(a, 1)];
  }

  /** Frames that are page aligned, all different and no tables. */
  ghost predicate FreshFrames(m: Forest, pmm: seq<Frame>)
    requires Shaped(m)
  {
    && (forall i, j :: 0 <= i < j < |pmm| ==> pmm[i] != pmm[j])
    && (forall i :: 0 <= i < |pmm| ==>
          pmm[i] != 0 && pmm[i] % 0x1000 == 0 && pmm[i] !in m.vaddrOf && Unreferenced(m, pmm[i]))
  }

  /** The last conjunct holds because all physical memory together is smaller
      than the part of the address space behind the window. */
  ghost predicate Inv(s: State) {
    && WellFormed(s.m) && s.cur in s.m.roots
    && s.len % 0x1000 == 0
    && (forall f :: f in s.m.vaddrOf ==> s.m.vaddrOf[f] <= WINDOW_BASE + s.len)
    && FreshFrames(s.m, s.pmm)
    && WINDOW_BASE + s.len + 0x1000 * |s.pmm| < ADDRESS_SPACE
  }

  /** The leaf table of the page at which the window ends once its length is
      `len` is there. */
  ghost predicate LeafReady(s: State, len: nat)
    requires Inv(s)
  {
    Descend(s.m, s.cur, WindowPage(len), 3).Some?
  }

  /** There are frames and window pages for n more tables. */
  ghost predicate Room(s: State, n: nat)
    requires Inv(s)
  {
    n <= |s.pmm| && forall i :: 1 <= i <= n ==> LeafReady(s, s.len + i * 0x1000)
  }

  /** The leaf tables of the window pages ahead are there up to some point, and
      none behind it, as far as the frames reach. */
  ghost predicate Contiguous(s: State)
    requires Inv(s)
  {
    forall i: nat, j: nat :: 1 <= i <= j <= |s.pmm| && LeafReady(s, s.len + j * 0x1000) ==>
      LeafReady(s, s.len + i * 0x1000)
  }

  /** The descent meets an entry that is present but names an unknown table. */
  ghost predicate DanglingAt(m: Forest, r: Frame, p: Page, k: nat)
    requires WellFormed(m) && r in m.roots && ValidPage(p) && k < 3
  {
    match Descend(m, r, p, k)
    case None => false
    case Some(f) => Table(m, f)[p[k]].present && Table(m, f)[p[k]].frame !in m.vaddrOf
  }

  ghost predicate Dangling(m: Forest, r: Frame, p: Page)
    requires WellFormed(m) && r in m.roots && ValidPage(p)
  {
    DanglingAt(m, r, p, 0) || DanglingAt(m, r, p, 1) || DanglingAt(m, r, p, 2)
  }

  /** How many tables are missing on the path to page p. */
  ghost function Need(m: Forest, r: Frame, p: Page): (n: nat)
    requires WellFormed(m) && r in m.roots && ValidPage(p)
    ensures n <= 3
  {
    if Dangling(m, r, p) || Descend(m, r, p, 3).Some? then 0
    else if Descend(m, r, p, 2).Some? then 1
    else if Descend(m, r, p, 1).Some? then 2
    else 3
  }

  /** The window mappings made for the given new tables, in order. */
  ghost function Window(len: nat, frames: seq<Frame>): (w: map<Page, Frame>)
  {
    if frames == [] then map[]
    else Window(len, frames[..|frames| - 1])[WindowPage(len + |frames| * 0x1000) := frames[|frames| - 1]]
  }

  /** The hashmap entries made for the given new tables, in order. */
  ghost function WindowTables(len: nat, frames: seq<Frame>): (w: map<Frame, Vaddr>) {
    if frames == [] then map[]
    else WindowTables(len, frames[..|frames| - 1])
           [frames[|frames| - 1] := WINDOW_BASE + len + |frames| * 0x1000]
  }

  /** m' translates like m except that in every space the pages of `win` are
      mapped as it says. */
  ghost predicate Overlay(m: Forest, m': Forest, win: map<Page, Frame>)
    requires Shaped(m) && Shaped(m')
  {
    && m'.roots == m.roots && m.roots <= m.vaddrOf.Keys && m.roots <= m'.vaddrOf.Keys
    && forall r, p :: r in m.roots && ValidPage(p) ==>
         Walk(m', r, p) == if p in win then Some(win[p]) else Walk(m, r, p)
  }

  /** The flat meaning of `mmap`: a point update of the page-to-frame map, in
      space r or, for a kernel page, in all spaces, next to the window pages. */
  ghost predicate Mapped(m: Forest, m': Forest, r: Frame, page: Page, x: Frame,
                         win: map<Page, Frame>)
    requires Shaped(m) && Shaped(m')
  {
    && m'.roots == m.roots && m.roots <= m.vaddrOf.Keys && m.roots <= m'.vaddrOf.Keys
    && forall s, p :: s in m.roots && ValidPage(p) ==>
         Walk(m', s, p) ==
           if p == page && (s == r || page[0] == KERNEL_SLOT) then Some(x)
           else if p in win then Some(win[p])
           else Walk(m, s, p)
  }

  // ------------------------------------------------- how each step keeps Inv

  lemma LeafStep(s: State, r: Frame, page: Page, f: Frame, x: Frame)
    requires Inv(s) && r in s.m.roots && ValidPage(page)
    requires Descend(s.m, r, page, 3) == Some(f)
    ensures var m' := Write(s.m, s.m.vaddrOf[f], page[3], Entry(true, x));
      && Inv(s.(m := m')) && SameDirectories(s.m, m') && Mapped(s.m, m', r, page, x, map[])
      && m'.roots == s.m.roots && (Closed(s.m) ==> Closed(m'))
  {
    hide Linked, Walk, Descend, Unreferenced, FreshFrames, SameDirectories, Closed;
    DescendPlace(s.m, r, page, 3);
    var m' := Write(s.m, s.m.vaddrOf[f], page[3], Entry(true, x));
    LeafWriteWellFormed(s.m, f, page[3], Entry(true, x));
    LeafWriteDescend(s.m, f, page[3], Entry(true, x), r, page);
    FreshSame(s.m, m', s.pmm);
    if Closed(s.m) {
      SameClosed(s.m, m');
    }
    forall q, p | q in s.m.roots && ValidPage(p)
      ensures Walk(m', q, p) ==
              if p == page && (q == r || page[0] == KERNEL_SLOT) then Some(x) else Walk(s.m, q, p)
    {
      LeafWriteWalk(s.m, r, page, f, x, q, p);
    }
  }

  lemma FreshSame(m: Forest, m': Forest, pmm: seq<Frame>)
    requires SameDirectories(m, m') && m'.vaddrOf == m.vaddrOf && m'.place == m.place && FreshFrames(m, pmm)
    ensures FreshFrames(m', pmm)
  {
    hide Unreferenced;
    forall i | 0 <= i < |pmm|
      ensures Unreferenced(m', pmm[i])
    {
      UnreferencedSame(m, m', pmm[i]);
    }
  }

  lemma TableStep(s: State, g: Frame, v: Vaddr, pl: Place)
    requires Inv(s) && g !in s.m.vaddrOf && g !in s.pmm && g != 0 && Unreferenced(s.m, g)
    requires v == WINDOW_BASE + s.len && |pl.path| <= 3
    requires v !in s.m.vaddrOf.Values
    ensures var m' := AddTable(s.m, g, v, pl);
      && Inv(s.(m := m')) && SameDirectories(s.m, m') && Overlay(s.m, m', map[]) && Empty(m', g)
      && (Closed(s.m) ==> Closed(m'))
  {
    hide Linked, Closed, Unreferenced, Walk, SameDirectories, RootsAgree, Overlay, FreshFrames;
    var m' := AddTable(s.m, g, v, pl);
    AddTableTables(s.m, g, v, pl);
    AddTableWellFormed(s.m, g, v, pl);
    AddTableSame(s.m, g, v, pl);
    AddTableFresh(s.m, g, v, pl, s.pmm);
    AddTableOverlay(s.m, g, v, pl);
    if Closed(s.m) {
      SameClosed(s.m, m');
    }
  }

  lemma AddTableOverlay(m: Forest, g: Frame, v: Vaddr, pl: Place)
    requires WellFormed(m) && g !in m.vaddrOf && v !in m.vaddrOf.Values && |pl.path| <= 3 && Unreferenced(m, g)
    ensures Shaped(AddTable(m, g, v, pl)) && Overlay(m, AddTable(m, g, v, pl), map[])
  {
    hide Linked, Unreferenced, Walk, SameDirectories;
    AddTableTables(m, g, v, pl);
    forall q, p | q in m.roots && ValidPage(p)
      ensures Walk(AddTable(m, g, v, pl), q, p) == Walk(m, q, p)
    {
      AddTableWalk(m, g, v, pl, q, p);
    }
  }

  lemma AddTableFresh(m: Forest, g: Frame, v: Vaddr, pl: Place, pmm: seq<Frame>)
    requires Shaped(m) && FreshFrames(m, pmm) && g !in m.vaddrOf && g !in pmm
    requires v !in m.vaddrOf.Values && |pl.path| <= 3
    ensures Shaped(AddTable(m, g, v, pl)) && FreshFrames(AddTable(m, g, v, pl), pmm)
  {
    AddTableTables(m, g, v, pl);
    forall i | 0 <= i < |pmm|
      ensures Unreferenced(AddTable(m, g, v, pl), pmm[i])
    {
      assert Unreferenced(m, pmm[i]);
    }
  }

  lemma LinkStep(s: State, r: Frame, page: Page, k: nat, f: Frame, g: Frame)
    requires Inv(s) && r in s.m.roots && ValidPage(page) && k < 3
    requires Descend(s.m, r, page, k) == Some(f) && !Table(s.m, f)[page[k]].present
    requires g in s.m.vaddrOf && g !in s.pmm && f != g && Empty(s.m, g)
    requires s.m.place[g] == Child(s.m.place[f], page[k])
    ensures var m' := Write(s.m, s.m.vaddrOf[f], page[k], Entry(true, g));
      && Inv(s.(m := m')) && Overlay(s.m, m', map[]) && Empty(m', g)
      && Descend(m', r, page, k + 1) == Some(g) && Grew(s.m, m', r, page)
      && (Closed(s.m) ==> Closed(m'))
  {
    hide Unreferenced, Linked, RootsAgree, Walk, FreshFrames, Descend, Empty, Overlay, Grew, Closed;
    DescendPlace(s.m, r, page, k);
    WriteTables(s.m, f, page[k], Entry(true, g));
    LinkWellFormed(s.m, f, page[k], g);
    LinkFresh(s, f, page[k], g);
    LinkOverlay(s.m, f, page[k], g);
    LinkReach(s.m, r, page, k, f, g);
    LinkGrew(s.m, r, page, k, f, g);
    if Closed(s.m) {
      LinkClosed(s.m, f, page[k], g);
    }
  }

  lemma LinkOverlay(m: Forest, f: Frame, i: nat, g: Frame)
    requires WellFormed(m) && f in m.vaddrOf && g in m.vaddrOf && f != g && i < 512
    requires !Table(m, f)[i].present && Empty(m, g) && |m.place[f].path| < 3
    ensures var m' := Write(m, m.vaddrOf[f], i, Entry(true, g));
      Shaped(m') && Overlay(m, m', map[])
  {
    hide Linked, Walk, Descend, Empty;
    var m' := Write(m, m.vaddrOf[f], i, Entry(true, g));
    WriteTables(m, f, i, Entry(true, g));
    forall q, p | q in m.roots && ValidPage(p)
      ensures Walk(m', q, p) == Walk(m, q, p)
    {
      LinkWalk(m, f, i, g, q, p);
    }
  }

  lemma LinkReach(m: Forest, r: Frame, page: Page, k: nat, f: Frame, g: Frame)
    requires WellFormed(m) && r in m.roots && ValidPage(page) && k < 3
    requires Descend(m, r, page, k) == Some(f) && g in m.vaddrOf && f != g
    requires !Table(m, f)[page[k]].present && Empty(m, g)
    ensures var m' := Write(m, m.vaddrOf[f], page[k], Entry(true, g));
      Shaped(m') && Empty(m', g) && Descend(m', r, page, k + 1) == Some(g)
  {
    hide Linked;
    WriteTables(m, f, page[k], Entry(true, g));
    LinkDescend(m, f, page[k], g, r, page, k);
  }

  lemma LinkFresh(s: State, f: Frame, i: nat, g: Frame)
    requires Inv(s) && f in s.m.vaddrOf && i < 512 && g !in s.pmm
    ensures var m' := Write(s.m, s.m.vaddrOf[f], i, Entry(true, g));
      Shaped(m') && FreshFrames(m', s.pmm)
  {
    hide Linked, RootsAgree, Unreferenced;
    var m' := Write(s.m, s.m.vaddrOf[f], i, Entry(true, g));
    WriteTables(s.m, f, i, Entry(true, g));
    forall j | 0 <= j < |s.pmm|
      ensures Unreferenced(m', s.pmm[j])
    {
      LinkUnreferenced(s.m, f, i, g, s.pmm[j]);
    }
  }

  lemma LinkUnreferenced(m: Forest, f: Frame, i: nat, g: Frame, h: Frame)
    requires Shaped(m) && f in m.vaddrOf && i < 512 && h != g && Unreferenced(m, h)
    ensures var m' := Write(m, m.vaddrOf[f], i, Entry(true, g));
      Shaped(m') && Unreferenced(m', h)
  {
    WriteTables(m, f, i, Entry(true, g));
  }

  // ------------------------------------------------ the nested calls of mmap

  /** The level loop finds no entry at level k and calls `alloc_pg_table`
      there, before it has written anything. */
  ghost predicate MissingAt(m: Forest, r: Frame, page: Page, k: nat)
    requires WellFormed(m) && r in m.roots && ValidPage(page) && k < 3
  {
    match Descend(m, r, page, k)
    case None => false
    case Some(f) => !Table(m, f)[page[k]].present
  }

  /** `mmap` needs a table exactly when its descent ends at a missing entry,
      and then as many as there are levels left. */
  lemma MissingIff(m: Forest, r: Frame, page: Page)
    requires WellFormed(m) && r in m.roots && ValidPage(page)
    ensures Descend(m, r, page, 3) == None && !Dangling(m, r, page)
       <==> exists k :: 0 <= k < 3 && MissingAt(m, r, page, k)
    ensures forall k :: 0 <= k < 3 && MissingAt(m, r, page, k) ==> Need(m, r, page) == 3 - k
  {
    hide Linked;
    DescendSteps(m, r, page);
    assert MissingAt(m, r, page, 0) || MissingAt(m, r, page, 1) || MissingAt(m, r, page, 2)
      <==> Descend(m, r, page, 3) == None && !Dangling(m, r, page);
  }

  lemma DescendSteps(m: Forest, r: Frame, page: Page)
    requires Shaped(m) && r in m.vaddrOf && ValidPage(page)
    ensures Descend(m, r, page, 0) == Some(r)
    ensures Descend(m, r, page, 1) == Step(m, r, page[0])
    ensures Descend(m, r, page, 2) == if Descend(m, r, page, 1).None? then None else Step(m, Descend(m, r, page, 1).value, page[1])
    ensures Descend(m, r, page, 3) == if Descend(m, r, page, 2).None? then None else Step(m, Descend(m, r, page, 2).value, page[2])
  {
  }

  /** What `alloc_pg_table` has done i times over when the i-th nested `mmap`
      begins, provided that each nested call before it needed a table: nothing
      is linked before the calls return. */
  ghost function Nested(s: State, i: nat): State
    requires i <= |s.pmm|
  {
    s.(len := s.len + i * 0x1000, pmm := s.pmm[i..])
  }

  /** Each nested call begins where the one before it calls `alloc_pg_table`. */
  lemma NestedChain(s: State, i: nat)
    requires i < |s.pmm|
    ensures Nested(Nested(s, i), 1) == Nested(s, i + 1)
  {
  }

  /** The i-th nested `mmap` needs no table exactly when the leaf table for its
      window page is there; otherwise it fails, or calls `alloc_pg_table` again
      with the tables as they were at the start. So one `alloc_pg_table` makes
      one table exactly when the leaf table for the next window page is there. */
  lemma NestedNeeds(s: State, i: nat)
    requires Inv(s) && 1 <= i <= |s.pmm|
    ensures var t := Nested(s, i);
      && Inv(t) && t.m == s.m
      && (Need(t.m, t.cur, WindowPage(t.len)) == 0 && !Dangling(t.m, t.cur, WindowPage(t.len))
          <==> LeafReady(s, s.len + i * 0x1000))
      && (!LeafReady(s, s.len + i * 0x1000) && !Dangling(t.m, t.cur, WindowPage(t.len))
          <==> exists k :: 0 <= k < 3 && MissingAt(t.m, t.cur, WindowPage(t.len), k))
  {
    hide Linked, RootsAgree, Shaped, FreshFrames, Descend, MissingAt, Dangling, WindowPage;
    var t := Nested(s, i);
    FreshSuffix(s.m, s.pmm, i);
    MissingIff(t.m, t.cur, WindowPage(t.len));
    ReadyNeeds(t.m, t.cur, WindowPage(t.len));
  }

  lemma FreshSuffix(m: Forest, pmm: seq<Frame>, i: nat)
    requires Shaped(m) && FreshFrames(m, pmm) && i <= |pmm|
    ensures FreshFrames(m, pmm[i..])
  {
  }

  lemma ReadyNeeds(m: Forest, r: Frame, page: Page)
    requires WellFormed(m) && r in m.roots && ValidPage(page)
    ensures Need(m, r, page) == 0 && !Dangling(m, r, page) <==> Descend(m, r, page, 3).Some?
  {
    hide Linked;
    DescendSteps(m, r, page);
  }

  /** Once the leaf table for the next window page is missing, every deeper
      call up to the end of that leaf table's range misses it too. */
  lemma NestedAbsent(s: State, i: nat)
    requires Inv(s) && 1 <= i && !LeafReady(s, s.len + 0x1000)
    requires WindowPage(s.len + i * 0x1000)[..3] == WindowPage(s.len + 0x1000)[..3]
    ensures !LeafReady(s, s.len + i * 0x1000)
  {
    hide WindowPage;
    DescendPrefix(s.m, s.cur, WindowPage(s.len + i * 0x1000), WindowPage(s.len + 0x1000), 3);
  }

  /** Known tables stay known, at the same address. */
  ghost predicate Keeps(m: Forest, m': Forest) {
    forall f :: f in m.vaddrOf ==> f in m'.vaddrOf && m'.vaddrOf[f] == m.vaddrOf[f]
  }

  /** What one `alloc_pg_table` does to the state, with the new table g meant
      for place pl. */
  ghost predicate Allocated(s: State, s': State, pl: Place, g: Frame) {
    && Inv(s) && Inv(s') && Room(s, 1)
    && s'.cur == s.cur && s'.len == s.len + 0x1000
    && g == s.pmm[0] && s'.pmm == s.pmm[1..]
    && s'.m.vaddrOf == s.m.vaddrOf[g := WINDOW_BASE + s'.len]
    && s'.m.place == s.m.place[g := pl]
    && SameDirectories(s.m, s'.m) && Empty(s'.m, g)
    && (Closed(s.m) ==> Closed(s'.m))
    && Overlay(s.m, s'.m, map[WindowPage(s'.len) := g])
  }

  /** What one `mmap` does to the state. It fails exactly when an existing
      directory entry names an unknown table, and then changes nothing;
      otherwise it creates the n missing tables, at the next n window pages,
      and performs a point update of the flat map. Descents change only on the
      path of the page, which then leads to a leaf table. */
  ghost predicate MmapDone(s: State, s': State, r: Frame, page: Page, x: Frame, ok: bool)
    requires Inv(s) && r in s.m.roots && ValidPage(page)
  {
    var n := Need(s.m, r, page);
    && Room(s, n) && Inv(s')
    && (ok <==> !Dangling(s.m, r, page))
    && (!ok ==> s' == s)
    && s'.cur == s.cur && s'.len == s.len + n * 0x1000 && s'.pmm == s.pmm[n..]
    && Keeps(s.m, s'.m) && s'.m.vaddrOf == s.m.vaddrOf + WindowTables(s.len, s.pmm[..n])
    && (ok ==> Mapped(s.m, s'.m, r, page, x, Window(s.len, s.pmm[..n])))
    && Grew(s.m, s'.m, r, page) && (ok ==> Descend(s'.m, r, page, 3).Some?)
    && (Closed(s.m) ==> Closed(s'.m))
    && (n == 0 ==> s'.m.vaddrOf == s.m.vaddrOf && s'.m.place == s.m.place && SameDirectories(s.m, s'.m))
  }

  // --------------------------------------------------- the level loop of mmap

  /** After k levels `mmap`, started in s0, is in s at table f, having created
      `made` tables. */
  ghost predicate Progress(s0: State, s: State, r: Frame, page: Page, k: nat, f: Frame, made: nat) {
    && Inv(s0) && Inv(s) && r in s0.m.roots && ValidPage(page) && k <= 3
    && s.cur == s0.cur && s.m.roots == s0.m.roots && Keeps(s0.m, s.m)
    && made <= |s0.pmm| && s.m.vaddrOf == s0.m.vaddrOf + WindowTables(s0.len, s0.pmm[..made])
    && Descend(s.m, r, page, k) == Some(f)
    && Room(s0, made)
    && made <= Need(s0.m, r, page)
    && (made == 0 ==> s == s0 && forall j :: 0 <= j < k ==> !DanglingAt(s0.m, r, page, j))
    && (made > 0 ==> Empty(s.m, f) && Need(s0.m, r, page) == made + 3 - k && !Dangling(s0.m, r, page))
    && s.len == s0.len + made * 0x1000 && s.pmm == s0.pmm[made..]
    && Overlay(s0.m, s.m, Window(s0.len, s0.pmm[..made]))
    && Grew(s0.m, s.m, r, page) && (Closed(s0.m) ==> Closed(s.m))
  }

  lemma ProgressStart(s: State, r: Frame, page: Page)
    requires Inv(s) && r in s.m.roots && ValidPage(page)
    ensures Progress(s, s, r, page, 0, r, 0)
  {
    assert s.pmm[..0] == [] && s.pmm[0..] == s.pmm;
    GrewSelf(s.m, r, page);
  }

  lemma GrewSelf(m: Forest, r: Frame, page: Page)
    requires WellFormed(m) && ValidPage(page)
    ensures Grew(m, m, r, page)
  {
  }

  lemma ProgressTable(s0: State, s: State, r: Frame, page: Page, k: nat, f: Frame, made: nat)
    requires Progress(s0, s, r, page, k, f, made)
    ensures f in s.m.vaddrOf && s.m.vaddrOf[f] in s.m.tables && |s.m.tables[s.m.vaddrOf[f]]| == 512
    ensures Inv(s) && f in s.m.place && s.cur == s0.cur
    ensures s.cur in s0.m.vaddrOf && s.cur in s.m.vaddrOf && s.m.vaddrOf[s.cur] == s0.m.vaddrOf[s.cur]
  {
  }

  lemma ProgressDown(s0: State, s: State, r: Frame, page: Page, k: nat, f: Frame, made: nat)
    requires Progress(s0, s, r, page, k, f, made) && k < 3
    requires s.m.tables[s.m.vaddrOf[f]][page[k]].present
    requires s.m.tables[s.m.vaddrOf[f]][page[k]].frame in s.m.vaddrOf
    ensures Progress(s0, s, r, page, k + 1, s.m.tables[s.m.vaddrOf[f]][page[k]].frame, made)
  {
    var g := s.m.tables[s.m.vaddrOf[f]][page[k]].frame;
    assert Table(s.m, f)[page[k]].present;
    assert made == 0;
    assert Descend(s.m, r, page, k + 1) == Some(g);
  }

  lemma ProgressDangling(s0: State, s: State, r: Frame, page: Page, k: nat, f: Frame, made: nat, x: Frame)
    requires Progress(s0, s, r, page, k, f, made) && k < 3
    requires s.m.tables[s.m.vaddrOf[f]][page[k]].present
    requires s.m.tables[s.m.vaddrOf[f]][page[k]].frame !in s.m.vaddrOf
    ensures s == s0 && MmapDone(s0, s, r, page, x, false)
  {
    hide Overlay, Window, WindowTables, FreshFrames, Keeps, Walk, Linked, RootsAgree, Grew, Closed, WindowPage, MmapDone, Need;
    assert Table(s.m, f)[page[k]].present;
    assert made == 0;
    assert DanglingAt(s0.m, r, page, k);
    FailDone(s0, r, page, x);
  }

  /** The call that fails changes nothing. */
  lemma FailDone(s: State, r: Frame, page: Page, x: Frame)
    requires Inv(s) && r in s.m.roots && ValidPage(page) && Dangling(s.m, r, page)
    ensures MmapDone(s, s, r, page, x, false)
  {
    hide Linked, RootsAgree, Shaped, FreshFrames, Walk, Grew, Closed, Descend, DanglingAt, LeafReady, Window;
    assert Need(s.m, r, page) == 0;
    assert s.pmm[0..] == s.pmm && s.pmm[..0] == [];
    GrewSelf(s.m, r, page);
    SelfSame(s.m);
  }

  lemma SelfSame(m: Forest)
    requires Shaped(m)
    ensures SameDirectories(m, m) && Keeps(m, m)
  {
  }

  lemma ProgressMissing(s0: State, s: State, r: Frame, page: Page, k: nat, f: Frame, made: nat)
    requires Progress(s0, s, r, page, k, f, made) && k < 3
    requires !s.m.tables[s.m.vaddrOf[f]][page[k]].present
    ensures Need(s0.m, r, page) == made + 3 - k && !Dangling(s0.m, r, page)
    ensures |Child(s.m.place[f], page[k]).path| <= 3
  {
    hide Overlay, Window, WindowTables, FreshFrames, Keeps, Walk, Linked, RootsAgree, Shaped, Grew, Closed, WindowPage, Descend, Dangling, Need;
    if made == 0 {
      MissingNeeds(s0.m, r, page, k, f);
    }
    DescendPlace(s.m, r, page, k);
  }

  lemma MissingNeeds(m: Forest, r: Frame, page: Page, k: nat, f: Frame)
    requires WellFormed(m) && r in m.roots && ValidPage(page) && k < 3
    requires Descend(m, r, page, k) == Some(f) && !m.tables[m.vaddrOf[f]][page[k]].present
    ensures Need(m, r, page) == 3 - k && !Dangling(m, r, page)
  {
    hide Need, Descend, Dangling;
    MissingIff(m, r, page);
    assert !Table(m, f)[page[k]].present;
    assert MissingAt(m, r, page, k);
  }

  /** As long as a table is missing, the leaf tables of the window are those of
      the start. */
  lemma MissingLeaf(s0: State, s: State, r: Frame, page: Page, k: nat, f: Frame, made: nat, len: nat)
    requires Progress(s0, s, r, page, k, f, made) && k < 3
    requires !s.m.tables[s.m.vaddrOf[f]][page[k]].present
    ensures LeafReady(s, len) <==> LeafReady(s0, len)
  {
    hide Overlay, Window, WindowTables, FreshFrames, Keeps, Walk, Linked, RootsAgree, Grew, Closed, WindowPage, Descend, Dangling, Need, Room, Empty;
    var q := WindowPage(len);
    GrewFact(s0.m, s.m, r, page, s.cur, q, 3);
    if Descend(s.m, s.cur, q, 3) != Descend(s0.m, s.cur, q, 3) {
      assert !Table(s.m, f)[page[k]].present;
      assert MissingAt(s.m, r, page, k);
      MissingIff(s.m, r, page);
      SameLeafPath(s.m, s.cur, q, r, page);
    }
  }

  lemma SameLeafPath(m: Forest, s: Frame, q: Page, r: Frame, page: Page)
    requires WellFormed(m) && s in m.roots && r in m.roots && ValidPage(q) && ValidPage(page)
    requires OnPath(s, q, 3, r, page)
    ensures Descend(m, s, q, 3) == Descend(m, r, page, 3)
  {
    hide Linked, Descend;
    if s != r {
      assert q[0] == q[..3][0] && page[0] == page[..3][0];
      SharedDescend(m, s, r, q, 3);
    }
    DescendPrefix(m, r, q, page, 3);
  }

  /** So the room for one more table is what the start says of it. */
  lemma ProgressWindow(s0: State, s: State, r: Frame, page: Page, k: nat, f: Frame, made: nat)
    requires Progress(s0, s, r, page, k, f, made) && k < 3
    requires !s.m.tables[s.m.vaddrOf[f]][page[k]].present
    ensures Room(s, 1) <==> Room(s0, made + 1)
    ensures Contiguous(s0) ==> Contiguous(s)
    ensures made < Need(s0.m, r, page)
    ensures Room(s0, made)
  {
    hide Progress, LeafReady, Inv, Need;
    ProgressCounts(s0, s, r, page, k, f, made);
    ProgressMissing(s0, s, r, page, k, f, made);
    forall i: nat
      ensures LeafReady(s, s.len + i * 0x1000) <==> LeafReady(s0, s0.len + (made + i) * 0x1000)
    {
      MissingLeaf(s0, s, r, page, k, f, made, s.len + i * 0x1000);
      assert s.len + i * 0x1000 == s0.len + (made + i) * 0x1000;
    }
    WindowShift(s0, s, made);
  }

  lemma ProgressCounts(s0: State, s: State, r: Frame, page: Page, k: nat, f: Frame, made: nat)
    requires Progress(s0, s, r, page, k, f, made)
    ensures Inv(s0) && Inv(s) && WellFormed(s0.m) && r in s0.m.roots && ValidPage(page) && Room(s0, made)
    ensures made <= |s0.pmm| && s.len == s0.len + made * 0x1000 && s.pmm == s0.pmm[made..]
    ensures made == 0 ==> s == s0
    ensures Closed(s0.m) ==> Closed(s.m)
  {
  }

  lemma WindowShift(s0: State, s: State, made: nat)
    requires Inv(s0) && Inv(s) && made <= |s0.pmm| && s.pmm == s0.pmm[made..] && Room(s0, made)
    requires forall i: nat :: LeafReady(s, s.len + i * 0x1000) <==> LeafReady(s0, s0.len + (made + i) * 0x1000)
    ensures Room(s, 1) <==> Room(s0, made + 1)
    ensures Contiguous(s0) ==> Contiguous(s)
  {
    hide Inv, LeafReady;
    if Room(s, 1) {
      assert LeafReady(s, s.len + 1 * 0x1000);
    }
    if Room(s0, made + 1) {
      assert LeafReady(s0, s0.len + (made + 1) * 0x1000);
    }
    if Contiguous(s0) {
      forall i: nat, j: nat | 1 <= i <= j <= |s.pmm| && LeafReady(s, s.len + j * 0x1000)
        ensures LeafReady(s, s.len + i * 0x1000)
      {
        assert LeafReady(s0, s0.len + (made + j) * 0x1000);
        assert LeafReady(s0, s0.len + (made + i) * 0x1000);
      }
    }
  }

  /** When `alloc_pg_table` brings no table, `mmap` had no room. */
  lemma ProgressStuck(s0: State, s: State, r: Frame, page: Page, k: nat, f: Frame, made: nat)
    requires Progress(s0, s, r, page, k, f, made) && k < 3
    requires !s.m.tables[s.m.vaddrOf[f]][page[k]].present && Inv(s) && !Room(s, 1)
    ensures Inv(s0) && WellFormed(s0.m) && r in s0.m.roots && ValidPage(page) && !Room(s0, Need(s0.m, r, page))
    ensures !Room(s0, 1) ==> s == s0
    ensures Closed(s0.m) ==> Closed(s.m)
  {
    hide Progress, Inv, Need, LeafReady;
    ProgressCounts(s0, s, r, page, k, f, made);
    ProgressWindow(s0, s, r, page, k, f, made);
  }

  lemma ProgressMake(s0: State, s: State, s1: State, r: Frame, page: Page, k: nat, f: Frame, made: nat, g: Frame)
    requires Progress(s0, s, r, page, k, f, made) && k < 3
    requires !s.m.tables[s.m.vaddrOf[f]][page[k]].present
    requires Allocated(s, s1, Child(s.m.place[f], page[k]), g)
    ensures s1.m.vaddrOf[f] == s.m.vaddrOf[f]
    ensures s1.m.vaddrOf[f] in s1.m.tables && page[k] < |s1.m.tables[s1.m.vaddrOf[f]]|
    ensures Progress(s0, s1.(m := Write(s1.m, s1.m.vaddrOf[f], page[k], Entry(true, g))), r, page, k + 1, g, made + 1)
  {
    hide Shaped, Linked, RootsAgree, Unreferenced, Walk, FreshFrames, Window, WindowTables, Dangling, Descend, Empty, Need, Grew, Closed, Room, SameDirectories, WindowPage;
    ProgressMissing(s0, s, r, page, k, f, made);
    ProgressWindow(s0, s, r, page, k, f, made);
    RoomFrames(s0, made + 1);
    ProgressTable(s0, s, r, page, k, f, made);
    MakeLink(s, s1, r, page, k, f, g);
    var s2 := s1.(m := Write(s1.m, s1.m.vaddrOf[f], page[k], Entry(true, g)));
    WindowSnoc(s0, made);
    OverlayTrans(s0.m, s.m, s1.m, Window(s0.len, s0.pmm[..made]), map[WindowPage(s1.len) := g]);
    OverlayTrans(s0.m, s1.m, s2.m, Window(s0.len, s0.pmm[..made + 1]), map[]);
    GrewTrans(s0.m, s.m, s1.m, r, page);
    GrewTrans(s0.m, s1.m, s2.m, r, page);
    assert s2.m.vaddrOf == s0.m.vaddrOf + WindowTables(s0.len, s0.pmm[..made + 1]);
  }

  lemma RoomFrames(s: State, k: nat)
    requires Inv(s) && Room(s, k)
    ensures k <= |s.pmm|
  {
  }

  lemma MakeLink(s: State, s1: State, r: Frame, page: Page, k: nat, f: Frame, g: Frame)
    requires Inv(s) && r in s.m.roots && ValidPage(page) && k < 3
    requires Descend(s.m, r, page, k) == Some(f) && !s.m.tables[s.m.vaddrOf[f]][page[k]].present
    requires f in s.m.place && Allocated(s, s1, Child(s.m.place[f], page[k]), g)
    ensures f in s1.m.vaddrOf && s1.m.vaddrOf[f] == s.m.vaddrOf[f] && Keeps(s.m, s1.m)
    ensures s1.m.vaddrOf[f] in s1.m.tables && |s1.m.tables[s1.m.vaddrOf[f]]| == 512
    ensures var m' := Write(s1.m, s1.m.vaddrOf[f], page[k], Entry(true, g));
      && Inv(s1.(m := m')) && Overlay(s1.m, m', map[]) && Empty(m', g)
      && Descend(m', r, page, k + 1) == Some(g)
      && Grew(s.m, s1.m, r, page) && Grew(s1.m, m', r, page) && (Closed(s.m) ==> Closed(m'))
  {
    hide Linked, RootsAgree, Walk, Unreferenced, Grew, Closed;
    AllocatedRoots(s, s1, Child(s.m.place[f], page[k]), g);
    SameGrew(s.m, s1.m, r, page);
    DescendPlace(s.m, r, page, k);
    DescendSame(s.m, s1.m, r, page, k);
    assert Table(s1.m, f) == Table(s.m, f);
    FreshHead(s);
    LinkStep(s1, r, page, k, f, g);
  }

  lemma AllocatedRoots(s: State, s1: State, pl: Place, g: Frame)
    requires Allocated(s, s1, pl, g)
    ensures s1.m.roots == s.m.roots
  {
  }

  lemma FreshHead(s: State)
    requires Inv(s) && Room(s, 1)
    ensures s.pmm[0] != 0 && s.pmm[0] % 0x1000 == 0
    ensures s.pmm[0] !in s.m.vaddrOf && Unreferenced(s.m, s.pmm[0])
    ensures s.pmm[0] !in s.pmm[1..]
  {
  }

  lemma WindowSnoc(s: State, n: nat)
    requires n < |s.pmm|
    ensures Window(s.len, s.pmm[..n + 1])
         == Window(s.len, s.pmm[..n]) + map[WindowPage(s.len + (n + 1) * 0x1000) := s.pmm[n]]
    ensures WindowTables(s.len, s.pmm[..n + 1])
         == WindowTables(s.len, s.pmm[..n])[s.pmm[n] := WINDOW_BASE + s.len + (n + 1) * 0x1000]
  {
    assert s.pmm[..n + 1][..n] == s.pmm[..n];
  }

  lemma OverlayTrans(m: Forest, m1: Forest, m2: Forest, w: map<Page, Frame>, w1: map<Page, Frame>)
    requires Shaped(m) && Shaped(m1) && Shaped(m2)
    requires Overlay(m, m1, w) && Overlay(m1, m2, w1)
    ensures Overlay(m, m2, w + w1)
  {
  }

  lemma ProgressEnd(s0: State, s: State, r: Frame, page: Page, f: Frame, made: nat, x: Frame)
    requires Progress(s0, s, r, page, 3, f, made)
    ensures f in s.m.vaddrOf && s.m.vaddrOf[f] in s.m.tables && page[3] < |s.m.tables[s.m.vaddrOf[f]]|
    ensures MmapDone(s0, s.(m := Write(s.m, s.m.vaddrOf[f], page[3], Entry(true, x))), r, page, x, true)
  {
    hide Linked, Walk, Unreferenced, FreshFrames, Grew, Closed, Need, Room, Window, WindowTables, WindowPage, Dangling, DanglingAt, Descend, Overlay, Mapped, SameDirectories, Empty, RootsAgree, Shaped;
    ProgressTable(s0, s, r, page, 3, f, made);
    LeafStep(s, r, page, f, x);
    if made == 0 {
      ReadyNeeds(s0.m, r, page);
    }
    var m' := Write(s.m, s.m.vaddrOf[f], page[3], Entry(true, x));
    EndGrew(s0.m, s.m, m', r, page);
    EndMapped(s0.m, s.m, m', r, page, x, Window(s0.len, s0.pmm[..made]));
  }

  lemma EndGrew(m: Forest, m1: Forest, m2: Forest, r: Frame, page: Page)
    requires WellFormed(m) && WellFormed(m1) && ValidPage(page) && Grew(m, m1, r, page) && r in m.roots
    requires SameDirectories(m1, m2) && m2.roots == m1.roots && Descend(m1, r, page, 3).Some?
    ensures Shaped(m2) && Grew(m, m2, r, page) && r in m2.vaddrOf && Descend(m2, r, page, 3).Some?
  {
    hide Linked, RootsAgree, Descend, SameDirectories, GrewAt;
    SameGrew(m1, m2, r, page);
    GrewTrans(m, m1, m2, r, page);
    DescendSame(m1, m2, r, page, 3);
  }

  lemma EndMapped(m: Forest, m1: Forest, m2: Forest, r: Frame, page: Page, x: Frame, w: map<Page, Frame>)
    requires Shaped(m) && Shaped(m1) && Shaped(m2)
    requires Overlay(m, m1, w) && Mapped(m1, m2, r, page, x, map[])
    ensures Mapped(m, m2, r, page, x, w)
  {
    hide Walk, Shaped;
  }

  lemma AllocatedBy(s: State, s1: State, s2: State, pl: Place, g: Frame, ok: bool)
    requires Inv(s) && Room(s, 1) && |pl.path| <= 3 && g == s.pmm[0]
    requires s1 == s.(pmm := s.pmm[1..], len := s.len + 0x1000) && Inv(s1)
    requires Need(s1.m, s.cur, WindowPage(s1.len)) == 0 && !Dangling(s1.m, s.cur, WindowPage(s1.len))
    requires MmapDone(s1, s2, s.cur, WindowPage(s1.len), g, ok)
    ensures ok
    ensures Allocated(s, s2.(m := AddTable(s2.m, g, WINDOW_BASE + s1.len, pl)), pl, g)
  {
    hide Shaped, Linked, RootsAgree, Unreferenced, Walk, Descend, FreshFrames, WindowTables, Need, Dangling, Grew, Closed, WindowPage, Mapped, Overlay, SameDirectories, Empty;
    FreshHead(s);
    WindowKernel(s1.len);
    var v := WINDOW_BASE + s1.len;
    var m3 := AddTable(s2.m, g, v, pl);
    assert s1.pmm[..0] == [] && s2.pmm == s1.pmm;
    NewAddress(s, v);
    UnreferencedSame(s.m, s2.m, g);
    TableStep(s2, g, v, pl);
    var w := map[WindowPage(s1.len) := g];
    MappedInWindow(s.m, s2.m, s.cur, WindowPage(s1.len), g);
    OverlayTrans(s.m, s2.m, m3, w, map[]);
    assert w + map[] == w;
    SameDirectoriesTrans(s.m, s2.m, m3, g);
  }

  lemma NewAddress(s: State, v: Vaddr)
    requires Inv(s) && v > WINDOW_BASE + s.len
    ensures v !in s.m.vaddrOf.Values
  {
    hide WellFormed, FreshFrames;
  }

  lemma MappedInWindow(m: Forest, m': Forest, r: Frame, page: Page, x: Frame)
    requires Shaped(m) && Shaped(m') && ValidPage(page) && page[0] == KERNEL_SLOT
    requires Mapped(m, m', r, page, x, map[])
    ensures Overlay(m, m', map[page := x])
  {
  }

  lemma MmapFacts(s: State, s': State, r: Frame, page: Page, x: Frame, ok: bool)
    requires Inv(s) && r in s.m.roots && ValidPage(page) && MmapDone(s, s', r, page, x, ok)
    ensures Inv(s') && s'.cur == s.cur && s.cur in s.m.vaddrOf && s.cur in s'.m.vaddrOf
    ensures s'.m.vaddrOf[s.cur] == s.m.vaddrOf[s.cur]
  {
  }

  lemma AllocatedFacts(s: State, s': State, pl: Place, g: Frame)
    requires Allocated(s, s', pl, g)
    ensures Inv(s') && s'.cur == s.cur && g in s'.m.vaddrOf && s.cur in s.m.vaddrOf && s.cur in s'.m.vaddrOf
    ensures |s'.pmm| < |s.pmm|
    ensures s'.m.vaddrOf[s.cur] == s.m.vaddrOf[s.cur]
  {
  }

  lemma UnreferencedSame(m: Forest, m': Forest, g: Frame)
    requires SameDirectories(m, m') && m'.vaddrOf == m.vaddrOf && m'.place == m.place && Unreferenced(m, g)
    ensures Unreferenced(m', g)
  {
  }

  lemma SameDirectoriesTrans(m: Forest, m1: Forest, m2: Forest, g: Frame)
    requires SameDirectories(m, m1) && SameDirectories(m1, m2)
    requires m1.vaddrOf == m.vaddrOf && m2.vaddrOf.Keys == m.vaddrOf.Keys + {g} && Unreferenced(m, g)
    ensures SameDirectories(m, m2)
  {
  }

  /** The state in which the nested `mmap` begins. It needs no table exactly when
      there is room for one; otherwise it fails or has no room either. */
  lemma WindowAdvance(s: State)
    requires Inv(s) && s.pmm != [] && (Room(s, 1) || Contiguous(s))
    ensures var s1 := s.(pmm := s.pmm[1..], len := s.len + 0x1000);
      && Inv(s1) && WellFormed(s1.m) && s.cur in s1.m.roots
      && (Room(s1, Need(s1.m, s.cur, WindowPage(s1.len))) || Contiguous(s1))
      && (if Room(s, 1)
          then Need(s1.m, s.cur, WindowPage(s1.len)) == 0 && !Dangling(s1.m, s.cur, WindowPage(s1.len)) && Room(s1, 0)
          else Dangling(s1.m, s.cur, WindowPage(s1.len))
               || (!Room(s1, 1) && !Room(s1, Need(s1.m, s.cur, WindowPage(s1.len)))))
  {
    hide Linked, RootsAgree, Shaped, FreshFrames, Descend, Dangling, Need, WindowPage, LeafReady;
    var s1 := s.(pmm := s.pmm[1..], len := s.len + 0x1000);
    NestedNeeds(s, 1);
    assert Nested(s, 1) == s1;
    assert s1.len == s.len + 1 * 0x1000;
    forall i: nat
      ensures LeafReady(s1, s1.len + i * 0x1000) <==> LeafReady(s, s.len + (1 + i) * 0x1000)
    {
      assert s1.len + i * 0x1000 == s.len + (1 + i) * 0x1000;
      ReadyAnywhere(s, s1, s1.len + i * 0x1000);
    }
    if Room(s, 1) {
      assert LeafReady(s, s.len + 1 * 0x1000);
    } else {
      NestedStuck(s, s1);
    }
  }

  lemma ReadyAnywhere(s: State, s1: State, len: nat)
    requires Inv(s) && Inv(s1) && s1.m == s.m && s1.cur == s.cur
    ensures LeafReady(s1, len) <==> LeafReady(s, len)
  {
  }

  /** Without the leaf table of the next window page, and with none behind it,
      there is no room at the nested call either. */
  lemma NestedStuck(s: State, s1: State)
    requires Inv(s) && Inv(s1) && s.pmm != [] && s1.pmm == s.pmm[1..] && !Room(s, 1) && Contiguous(s)
    requires forall i: nat :: LeafReady(s1, s1.len + i * 0x1000) <==> LeafReady(s, s.len + (1 + i) * 0x1000)
    ensures Contiguous(s1) && !LeafReady(s, s.len + 1 * 0x1000) && forall n: nat :: n >= 1 ==> !Room(s1, n)
  {
    hide Inv, LeafReady;
    assert !LeafReady(s, s.len + 1 * 0x1000);
    forall j: nat | 1 <= j <= |s.pmm|
      ensures !LeafReady(s, s.len + j * 0x1000)
    {
    }
    forall j: nat | 1 <= j <= |s1.pmm|
      ensures !LeafReady(s1, s1.len + j * 0x1000)
    {
      assert !LeafReady(s, s.len + (1 + j) * 0x1000);
    }
    assert |s1.pmm| >= 1 ==> !LeafReady(s1, s1.len + 1 * 0x1000);
  }

  // --------------------------------------------------------- new spaces

  /** What `create_new_pml4t` does: a new space g whose kernel half is the
      current one's and whose lower half is empty. */
  ghost predicate Created(s: State, s': State, g: Frame) {
    && Inv(s) && Inv(s') && Room(s, 1)
    && s'.cur == s.cur && s'.len == s.len + 0x1000 && g == s.pmm[0] && s'.pmm == s.pmm[1..]
    && s'.m.roots == s.m.roots + {g}
    && s'.m.vaddrOf == s.m.vaddrOf[g := WINDOW_BASE + s'.len]
    && SameDirectories(s.m, s'.m) && (Closed(s.m) ==> Closed(s'.m))
    && forall r, p :: r in s'.m.roots && ValidPage(p) ==>
         Walk(s'.m, r, p) ==
           if p == WindowPage(s'.len) then Some(g)
           else if r != g then Walk(s.m, r, p)
           else if p[0] == KERNEL_SLOT then Walk(s.m, s.cur, p)
           else None
  }

  ghost predicate NewRootReady(s: State, s1: State, g: Frame) {
    && Shaped(s1.m) && s.cur in s1.m.vaddrOf && g in s1.m.vaddrOf
    && s1.m.vaddrOf[g] == WINDOW_BASE + s1.len
    && WINDOW_BASE + s1.len in s1.m.tables && |s1.m.tables[WINDOW_BASE + s1.len]| == 512
  }

  /** The forest after `create_new_pml4t` copied the kernel entry into g. */
  ghost function NewRootOf(s: State, s1: State, g: Frame): Forest
    requires NewRootReady(s, s1, g)
  {
    NewRoot(s1.m, g, WINDOW_BASE + s1.len, Table(s1.m, s.cur)[511])
  }

  function NewRoot(m: Forest, g: Frame, v: Vaddr, e: Entry): Forest
    requires v in m.tables && 511 < |m.tables[v]|
  {
    Write(m, v, 511, e).(roots := m.roots + {g})
  }

  lemma NewRootTables(s: State, s1: State, g: Frame)
    requires Allocated(s, s1, RootPlace(g), g)
    ensures g !in s.m.vaddrOf && s.cur in s1.m.vaddrOf
    ensures NewRootReady(s, s1, g)
    ensures WellFormed(NewRootOf(s, s1, g)) && SameDirectories(s.m, NewRootOf(s, s1, g))
    ensures forall f :: f in s.m.vaddrOf ==> Table(NewRootOf(s, s1, g), f) == Table(s1.m, f)
    ensures Table(NewRootOf(s, s1, g), g) == Table(s1.m, g)[511 := Table(s1.m, s.cur)[511]]
  {
    hide Unreferenced, Linked, FreshFrames, Walk, SameDirectories, Overlay, RootsAgree;
    FreshHead(s);
    AllocatedDirs(s, s1, RootPlace(g), g);
    var e := Table(s1.m, s.cur)[511];
    var m2 := NewRootOf(s, s1, g);
    WriteTables(s1.m, g, 511, e);
    assert Shaped(m2);
    NewRootLinked(s1.m, m2, s.cur, g);
    NewRootDirs(s.m, s1.m, m2, g);
  }

  lemma AllocatedDirs(s: State, s1: State, pl: Place, g: Frame)
    requires Allocated(s, s1, pl, g)
    ensures s.cur in s1.m.vaddrOf && s.cur in s1.m.roots
  {
  }

  lemma NewRootDirs(m: Forest, m1: Forest, m2: Forest, g: Frame)
    requires SameDirectories(m, m1) && Shaped(m2) && g !in m.vaddrOf
    requires m2.vaddrOf == m1.vaddrOf && m2.place == m1.place
    requires forall f :: f in m1.vaddrOf && f != g ==> Table(m2, f) == Table(m1, f)
    ensures SameDirectories(m, m2)
    ensures forall f :: f in m.vaddrOf ==> f in m2.vaddrOf && Table(m2, f) == Table(m1, f)
  {
  }

  lemma NewRootLinked(m: Forest, m2: Forest, cur: Frame, g: Frame)
    requires WellFormed(m) && Shaped(m2) && cur in m.roots && g in m.vaddrOf && Empty(m, g)
    requires m.place[g] == RootPlace(g)
    requires m2.vaddrOf == m.vaddrOf && m2.place == m.place && m2.roots == m.roots + {g}
    requires Table(m2, g) == Table(m, g)[511 := Table(m, cur)[511]]
    requires forall f :: f in m.vaddrOf && f != g ==> Table(m2, f) == Table(m, f)
    ensures WellFormed(m2)
  {
    assert Child(RootPlace(g), 511) == Child(RootPlace(cur), 511);
    assert Table(m, cur)[511].present;
    assert g !in m.roots;
  }

  lemma NewRootWalk(s: State, s1: State, g: Frame, m2: Forest, r: Frame, p: Page)
    requires Allocated(s, s1, RootPlace(g), g)
    requires NewRootReady(s, s1, g) && m2 == NewRootOf(s, s1, g)
    requires r in s.m.roots && ValidPage(p)
    ensures WellFormed(m2) && Walk(m2, r, p) == Walk(s1.m, r, p)
  {
    hide Linked, Unreferenced, FreshFrames, Descend, Overlay, Closed, Room, NewRootOf;
    NewRootTables(s, s1, g);
    DescendSame(s.m, m2, r, p, 3);
    DescendSame(s.m, s1.m, r, p, 3);
  }

  lemma NewRootClosed(s: State, s1: State, g: Frame, m2: Forest)
    requires Allocated(s, s1, RootPlace(g), g) && Closed(s.m)
    requires NewRootReady(s, s1, g) && m2 == NewRootOf(s, s1, g)
    ensures Shaped(m2) && Closed(m2)
  {
    hide Unreferenced, FreshFrames, Overlay, Room, Walk, Linked;
    NewRootTables(s, s1, g);
    WriteTables(s1.m, g, 511, Table(s1.m, s.cur)[511]);
    assert Table(s1.m, s.cur)[511].frame in s1.m.vaddrOf;
  }

  lemma NewRootFresh(s: State, s1: State, g: Frame, m2: Forest)
    requires Allocated(s, s1, RootPlace(g), g)
    requires NewRootReady(s, s1, g) && m2 == NewRootOf(s, s1, g)
    ensures Shaped(m2) && FreshFrames(m2, s1.pmm)
  {
    NewRootTables(s, s1, g);
    forall i | 0 <= i < |s1.pmm|
      ensures Unreferenced(m2, s1.pmm[i])
    {
      assert Unreferenced(s1.m, s1.pmm[i]);
    }
  }

  lemma NewRootOwnWalk(m: Forest, g: Frame, r: Frame, p: Page)
    requires WellFormed(m) && g in m.roots && r in m.roots && ValidPage(p)
    requires forall i :: 0 <= i < 511 ==> !Table(m, g)[i].present
    ensures Walk(m, g, p) == if p[0] == KERNEL_SLOT then Walk(m, r, p) else None
  {
    if p[0] == KERNEL_SLOT {
      KernelHalfShared(m, g, r, p);
    } else {
      assert Descend(m, g, p, 0) == Some(g);
      assert Descend(m, g, p, 1) == None;
      assert Descend(m, g, p, 2) == None;
    }
  }

  lemma NewRootInv(s: State, s1: State, g: Frame, m2: Forest)
    requires Allocated(s, s1, RootPlace(g), g)
    requires NewRootReady(s, s1, g) && m2 == NewRootOf(s, s1, g)
    ensures Inv(s1.(m := m2))
  {
    hide Shaped, Linked, Unreferenced, Walk, Descend, FreshFrames, SameDirectories, Closed;
    NewRootTables(s, s1, g);
    NewRootFresh(s, s1, g, m2);
  }

  lemma NewRootTranslates(s: State, s1: State, g: Frame, m2: Forest, r: Frame, p: Page)
    requires Allocated(s, s1, RootPlace(g), g)
    requires NewRootReady(s, s1, g) && m2 == NewRootOf(s, s1, g)
    requires r in m2.roots && ValidPage(p)
    ensures Shaped(m2) && r in m2.vaddrOf
    ensures Walk(m2, r, p) ==
         if p == WindowPage(s1.len) then Some(g)
         else if r != g then Walk(s.m, r, p)
         else if p[0] == KERNEL_SLOT then Walk(s.m, s.cur, p)
         else None
  {
    hide Shaped, Linked, Unreferenced, Walk, Descend, FreshFrames, SameDirectories, Closed, Room, WindowPage;
    NewRootTables(s, s1, g);
    if r != g {
      NewRootWalk(s, s1, g, m2, r, p);
    } else {
      WindowKernel(s1.len);
      NewRootWalk(s, s1, g, m2, s.cur, p);
      NewRootOwnWalk(m2, g, s.cur, p);
    }
  }

  lemma CreatedBy(s: State, s1: State, g: Frame)
    requires Allocated(s, s1, RootPlace(g), g)
    ensures NewRootReady(s, s1, g)
    ensures Created(s, s1.(m := NewRootOf(s, s1, g)), g)
  {
    hide Shaped, Linked, Unreferenced, Walk, Descend, FreshFrames, SameDirectories, Closed, WindowPage;
    NewRootTables(s, s1, g);
    var m2 := NewRootOf(s, s1, g);
    NewRootInv(s, s1, g, m2);
    if Closed(s.m) {
      NewRootClosed(s, s1, g, m2);
    }
    forall r, p | r in m2.roots && ValidPage(p)
      ensures Shaped(m2) && r in m2.vaddrOf
      ensures Walk(m2, r, p) ==
           if p == WindowPage(s1.len) then Some(g)
           else if r != g then Walk(s.m, r, p)
           else if p[0] == KERNEL_SLOT then Walk(s.m, s.cur, p)
           else None
    {
      NewRootTranslates(s, s1, g, m2, r, p);
    }
  }

  /** What `mmap` comes to: true, false, or frames running out in the nested
      calls, where the code goes on through a NULL pointer. */
  datatype MapResult = Success | Unknown | Exhausted

  /** The kernel's paging state; the fields are the C globals. */
  class Pager {
    var tables: map<Vaddr, seq<Entry>>
    var vaddrOf: map<Frame, Vaddr>
    var windowLength: nat
    var currentRoot: Vaddr
    var pmm: seq<Frame>
    ghost var place: map<Frame, Place>
    ghost var roots: set<Frame>
    ghost var cur: Frame

    ghost function Now(): State
      reads this
    {
      State(Forest(tables, vaddrOf, place, roots), windowLength, cur, pmm)
    }

    ghost predicate Valid()
      reads this
    {
      Inv(Now()) && currentRoot == vaddrOf[cur]
    }

    /** The state `vmm_init` sets up from the boot tables. */
    constructor (tables: map<Vaddr, seq<Entry>>, vaddrOf: map<Frame, Vaddr>, root: Frame, pmm: seq<Frame>,
                 ghost place: map<Frame, Place>)
      requires Inv(State(Forest(tables, vaddrOf, place, {root}), WINDOW_INITIAL_LENGTH, root, pmm))
      ensures Valid()
      ensures Now() == State(Forest(tables, vaddrOf, place, {root}), WINDOW_INITIAL_LENGTH, root, pmm)
    {
      this.tables, this.vaddrOf, this.pmm := tables, vaddrOf, pmm;
      windowLength, currentRoot := WINDOW_INITIAL_LENGTH, vaddrOf[root];
      this.place, roots, cur := place, {root}, root;
    }

    /** `mmap(root_table, paddr, vaddr, flags)`. The walk masks the low bits of
        the stored word away, so what it finds is the frame of paddr. Without
        room for the tables it needs the nested calls run out of frames; if
        there is room for none, nothing has been written then. */
    method Mmap(rootTable: Vaddr, ghost r: Frame, paddr: Frame, vaddr: Vaddr) returns (result: MapResult)
      requires Valid() && r in roots && rootTable == vaddrOf[r]
      requires Room(Now(), Need(Now().m, r, PageOf(vaddr))) || Contiguous(Now())
      modifies this
      ensures result == Exhausted <==> !old(Room(Now(), Need(Now().m, r, PageOf(vaddr))))
      ensures result != Exhausted ==>
        && Valid() && currentRoot == old(currentRoot)
        && MmapDone(old(Now()), Now(), r, PageOf(vaddr), PageAlignDown(paddr), result == Success)
      ensures result == Exhausted && !old(Room(Now(), 1)) ==> Now().m == old(Now().m)
      ensures result == Exhausted && old(Closed(Now().m)) ==> pmm == []
      decreases |pmm|, 2
    {
      hide Inv, Progress, MmapDone, Allocated, Need, Room, Dangling, PageAlignDown, Contiguous, Closed, Index, Span, WellFormed;
      var frame := PageAlignDown(paddr);
      ghost var page := PageOf(vaddr);
      ghost var s0 := Now();
      ghost var made: nat := 0;
      ghost var f := r;
      var ptVaddr := rootTable;
      var level := 3;
      RootKnown(s0, r);
      ProgressStart(s0, r, page);
      ProgressTable(s0, s0, r, page, 0, r, 0);
      while level > 0
        invariant 0 <= level <= 3 && |pmm| <= |s0.pmm|
        invariant Progress(s0, Now(), r, page, 3 - level, f, made)
        invariant f in vaddrOf && ptVaddr == vaddrOf[f] && currentRoot == old(currentRoot)
      {
        ghost var k := 3 - level;
        ProgressTable(s0, Now(), r, page, k, f, made);
        var offset := Index(vaddr, level);
        assert offset == page[k];
        var value := tables[ptVaddr][offset];
        if value.present {
          if value.frame !in vaddrOf {
            ProgressDangling(s0, Now(), r, page, k, f, made, frame);
            DoneRoom(s0, Now(), r, page, frame, false);
            return Unknown;
          }
          ProgressDown(s0, Now(), r, page, k, f, made);
          ptVaddr := vaddrOf[value.frame];
          f := value.frame;
        } else {
          var next;
          ghost var g;
          next, g := NewTable(ptVaddr, offset, s0, r, page, k, f, made);
          if next == None {
            return Exhausted;
          }
          made := made + 1;
          ptVaddr := next.value;
          f := g;
        }
        level := level - 1;
      }
      var offset := Index(vaddr, 0);
      ProgressEnd(s0, Now(), r, page, f, made, frame);
      tables := tables[ptVaddr := tables[ptVaddr][offset := Entry(true, frame)]];
      MmapFacts(s0, Now(), r, page, frame, true);
      DoneRoom(s0, Now(), r, page, frame, true);
      return Success;
    }

    /** The branch of `mmap` that finds no entry: a new table, linked there, and
        its address; None when there is no table to be had. */
    method NewTable(ptVaddr: Vaddr, offset: nat, ghost s0: State, ghost r: Frame, ghost page: Page, ghost k: nat,
                    ghost f: Frame, ghost made: nat) returns (next: Option<Vaddr>, ghost g: Frame)
      requires Valid() && Progress(s0, Now(), r, page, k, f, made) && k < 3 && offset == page[k]
      requires Inv(s0) && WellFormed(s0.m) && r in s0.m.roots && ValidPage(page)
      requires Room(s0, Need(s0.m, r, page)) || Contiguous(s0)
      requires f in vaddrOf && ptVaddr == vaddrOf[f] && ptVaddr in tables && |tables[ptVaddr]| == 512
      requires f in place && !tables[ptVaddr][offset].present
      modifies this
      ensures next == None ==>
        && !Room(s0, Need(s0.m, r, page)) && (!Room(s0, 1) ==> Now().m == s0.m) && (Closed(s0.m) ==> pmm == [])
      ensures next.Some? ==>
        && Progress(s0, Now(), r, page, k + 1, g, made + 1) && g in vaddrOf && next.value == vaddrOf[g]
        && currentRoot == old(currentRoot) && |pmm| < old(|pmm|)
      decreases |pmm|, 1
    {
      hide Inv, Progress, Allocated, Need, Room, Contiguous, Closed;
      ghost var s1 := Now();
      g := 0;
      ProgressMissing(s0, s1, r, page, k, f, made);
      ProgressNext(s0, s1, r, page, k, f, made);
      var ptPaddr := AllocPgTable(Child(place[f], page[k]));
      if ptPaddr == None {
        ProgressStuck(s0, s1, r, page, k, f, made);
        return None, g;
      }
      g := ptPaddr.value;
      ProgressMake(s0, s1, Now(), r, page, k, f, made, g);
      tables := tables[ptVaddr := tables[ptVaddr][offset := Entry(true, ptPaddr.value)]];
      next := Some(vaddrOf[ptPaddr.value]);
    }

    /** `alloc_pg_table`: a zeroed table, mapped at the new end of the window and
        entered in the hashmap. Without the leaf table for that end the nested
        `mmap` calls this again, and so on until the frames run out: then there
        is no table, and nothing has been written. */
    method AllocPgTable(ghost pl: Place) returns (paddr: Option<Frame>)
      requires Valid() && |pl.path| <= 3 && (Room(Now(), 1) || Contiguous(Now()))
      modifies this
      ensures paddr.Some? <==> old(Room(Now(), 1))
      ensures paddr.Some? ==>
        && Valid() && currentRoot == old(currentRoot) && paddr.value in vaddrOf
        && Allocated(old(Now()), Now(), pl, paddr.value)
      ensures paddr == None ==> Now().m == old(Now().m)
      ensures paddr == None && old(Closed(Now().m)) ==> pmm == []
      ensures paddr.Some? ==> |pmm| < old(|pmm|)
      decreases |pmm|, 0
    {
      hide Inv, MmapDone, Allocated, Need, Dangling, Index, PageAlignDown, Contiguous, Room, Closed;
      ghost var s0 := Now();
      if pmm == [] {
        NoFrames(s0);
        return None;
      }
      WindowAdvance(s0);
      HeadAligned(s0);
      var frame := pmm[0];
      pmm := pmm[1..];
      windowLength := windowLength + 0x1000;
      var v := WINDOW_BASE + windowLength;
      ghost var s1 := Now();
      assert s1 == s0.(pmm := s0.pmm[1..], len := s0.len + 0x1000);
      var result := Mmap(currentRoot, cur, frame, v);
      ghost var s2 := Now();
      if result != Success {
        NestedFails(s0, s1, s2, frame, result);
        return None;
      }
      NestedMaps(s0, s1, s2, frame);
      AllocatedBy(s0, s1, s2, pl, frame, true);
      tables := tables[v := seq(512, _ => NO_ENTRY)];
      vaddrOf := vaddrOf[frame := v];
      place := place[frame := pl];
      AllocatedFacts(s0, Now(), pl, frame);
      return Some(frame);
    }

    /** `create_new_pml4t`, called by `create_vmm`. */
    method CreateNewPml4t() returns (root: Option<Frame>)
      requires Valid() && (Room(Now(), 1) || Contiguous(Now()))
      modifies this
      ensures root.Some? <==> old(Room(Now(), 1))
      ensures root.Some? ==>
        Valid() && currentRoot == old(currentRoot) && Created(old(Now()), Now(), root.value)
      ensures root == None ==> Now().m == old(Now().m)
      ensures root == None && old(Closed(Now().m)) ==> pmm == []
    {
      hide Allocated, Created, Contiguous, Closed, Room;
      ghost var s0 := Now();
      ghost var first := if pmm == [] then 0 else pmm[0];
      root := AllocPgTable(RootPlace(first));
      if root == None {
        return None;
      }
      ghost var s1 := Now();
      FirstFrame(s0, s1, RootPlace(first), root.value);
      CreatedBy(s0, s1, root.value);
      var v := vaddrOf[root.value];
      tables := tables[v := tables[v][511 := tables[currentRoot][511]]];
      roots := roots + {root.value};
      assert Now() == s1.(m := NewRootOf(s0, s1, root.value));
      CreatedFacts(s0, Now(), root.value);
    }

    /** `switch_vm_space`, for a space whose root the hashmap knows. */
    method SwitchVmSpace(root: Frame)
      requires Valid() && root in roots
      modifies `currentRoot, `cur
      ensures Valid() && Now() == old(Now()).(cur := root)
    {
      currentRoot := vaddrOf[root];
      cur := root;
    }
  }

  lemma Aligned(n: nat)
    requires n % 0x1000 == 0
    ensures PageAlignDown(n) == n
  {
  }

  lemma RootKnown(s: State, r: Frame)
    requires Inv(s) && r in s.m.roots
    ensures r in s.m.vaddrOf && WellFormed(s.m)
  {
  }

  lemma ProgressNext(s0: State, s: State, r: Frame, page: Page, k: nat, f: Frame, made: nat)
    requires Progress(s0, s, r, page, k, f, made) && k < 3 && Inv(s0) && WellFormed(s0.m) && r in s0.m.roots && ValidPage(page)
    requires !s.m.tables[s.m.vaddrOf[f]][page[k]].present
    requires Room(s0, Need(s0.m, r, page)) || Contiguous(s0)
    ensures Room(s, 1) || Contiguous(s)
  {
    hide Progress, Inv, Need, LeafReady;
    ProgressCounts(s0, s, r, page, k, f, made);
    ProgressWindow(s0, s, r, page, k, f, made);
  }

  lemma DoneRoom(s: State, s': State, r: Frame, page: Page, x: Frame, ok: bool)
    requires Inv(s) && WellFormed(s.m) && r in s.m.roots && ValidPage(page) && MmapDone(s, s', r, page, x, ok)
    ensures Room(s, Need(s.m, r, page)) && (ok <==> !Dangling(s.m, r, page)) && (!ok ==> s' == s)
    ensures Inv(s')
  {
  }

  lemma NoFrames(s: State)
    requires Inv(s) && s.pmm == []
    ensures !Room(s, 1)
  {
  }

  lemma HeadAligned(s: State)
    requires Inv(s) && s.pmm != []
    ensures PageAlignDown(s.pmm[0]) == s.pmm[0] && s.cur in s.m.roots && s.cur in s.m.vaddrOf
  {
  }

  /** The nested `mmap` comes back empty-handed exactly without room. */
  lemma NestedFails(s: State, s1: State, s2: State, x: Frame, result: MapResult)
    requires Inv(s) && Inv(s1) && WellFormed(s1.m) && s1.cur in s1.m.roots && s1.cur == s.cur && s1.m == s.m
    requires if Room(s, 1)
      then Need(s1.m, s1.cur, WindowPage(s1.len)) == 0 && !Dangling(s1.m, s1.cur, WindowPage(s1.len)) && Room(s1, 0)
      else Dangling(s1.m, s1.cur, WindowPage(s1.len))
           || (!Room(s1, 1) && !Room(s1, Need(s1.m, s1.cur, WindowPage(s1.len))))
    requires result != Success && (result == Exhausted <==> !Room(s1, Need(s1.m, s1.cur, WindowPage(s1.len))))
    requires result == Unknown ==> MmapDone(s1, s2, s1.cur, WindowPage(s1.len), x, false)
    ensures !Room(s, 1) && (result == Unknown ==> s2 == s1 && !Closed(s.m))
    ensures result == Exhausted ==> !Room(s1, 1)
  {
    hide Inv, Room, Need, WindowPage, Closed, Descend;
    if result == Unknown {
      DoneRoom(s1, s2, s1.cur, WindowPage(s1.len), x, false);
      DanglingOpen(s1.m, s1.cur, WindowPage(s1.len));
    } else if Dangling(s1.m, s1.cur, WindowPage(s1.len)) {
      DanglingRoom(s1, WindowPage(s1.len));
    }
  }

  lemma DanglingOpen(m: Forest, r: Frame, p: Page)
    requires WellFormed(m) && r in m.roots && ValidPage(p) && Dangling(m, r, p)
    ensures !Closed(m)
  {
    hide Linked;
    var k := if DanglingAt(m, r, p, 0) then 0 else if DanglingAt(m, r, p, 1) then 1 else 2;
    assert DanglingAt(m, r, p, k);
    DescendPlace(m, r, p, k);
  }

  lemma DanglingRoom(s: State, p: Page)
    requires Inv(s) && WellFormed(s.m) && s.cur in s.m.roots && ValidPage(p) && Dangling(s.m, s.cur, p)
    ensures Room(s, Need(s.m, s.cur, p))
  {
  }

  lemma NestedMaps(s: State, s1: State, s2: State, x: Frame)
    requires Inv(s) && Inv(s1) && WellFormed(s1.m) && s1.cur in s1.m.roots && s1.cur == s.cur && s1.m == s.m
    requires !Room(s, 1) ==>
      Dangling(s1.m, s1.cur, WindowPage(s1.len)) || !Room(s1, Need(s1.m, s1.cur, WindowPage(s1.len)))
    requires MmapDone(s1, s2, s1.cur, WindowPage(s1.len), x, true)
    ensures Room(s, 1)
  {
    hide Inv, Room, Need, WindowPage, Dangling;
    DoneRoom(s1, s2, s1.cur, WindowPage(s1.len), x, true);
  }

  lemma FirstFrame(s: State, s1: State, pl: Place, g: Frame)
    requires Allocated(s, s1, pl, g)
    ensures Room(s, 1) && g == s.pmm[0] && s1.cur == s.cur
  {
  }

  lemma CreatedFacts(s: State, s': State, g: Frame)
    requires Created(s, s', g)
    ensures Inv(s') && s'.cur == s.cur && s.cur in s.m.vaddrOf && s.cur in s'.m.vaddrOf
    ensures s'.m.vaddrOf[s.cur] == s.m.vaddrOf[s.cur]
  {
  }
}
