/** The page loop at the end of `vmm_alloc`: a new frame for every page of the
    region, mapped in the current space. */
module Backing {
  import opened Common
  import opened Address
  import opened TableForest
  import opened PageTables
  import opened AddressSpaces
  import opened RegionSpec
  import RegionList

  /** The i-th page of a region. */
  ghost function RegionPage(found: nat, i: nat): (p: Page)
    ensures ValidPage(p)
  {
    PageOf(found + i * 0x1000)
  }

  // ------------------------------------------------ which tables are missing

  /** One of the first i pages of the region shares k indices with q. */
  ghost predicate Met(found: nat, i: nat, q: Page, k: nat)
    requires ValidPage(q) && k <= 3
  {
    exists j :: 0 <= j < i && RegionPage(found, j)[..k] == q[..k]
  }

  /** Page i is the first of the region to need a table after k indices. */
  ghost predicate FirstNeeds(m: Forest, r: Frame, found: nat, i: nat, k: nat)
    requires Shaped(m) && r in m.vaddrOf && k <= 3
  {
    Descend(m, r, RegionPage(found, i), k) == None && !Met(found, i, RegionPage(found, i), k)
  }

  ghost function One(b: bool): nat { if b then 1 else 0 }

  /** How many tables page i adds to those the pages before it needed. */
  ghost function TablesFor(m: Forest, r: Frame, found: nat, i: nat): (n: nat)
    requires Shaped(m) && r in m.vaddrOf
    ensures n <= 3
  {
    One(FirstNeeds(m, r, found, i, 1)) + One(FirstNeeds(m, r, found, i, 2)) + One(FirstNeeds(m, r, found, i, 3))
  }

  /** How many tables the first n pages need together. */
  ghost function TablesBefore(m: Forest, r: Frame, found: nat, n: nat): nat
    requires Shaped(m) && r in m.vaddrOf
  {
    if n == 0 then 0 else TablesBefore(m, r, found, n - 1) + TablesFor(m, r, found, n - 1)
  }

  lemma {:induction false} TablesGrow(m: Forest, r: Frame, found: nat, i: nat, n: nat)
    requires Shaped(m) && r in m.vaddrOf && i <= n
    ensures TablesBefore(m, r, found, i) <= TablesBefore(m, r, found, n)
    decreases n - i
  {
    hide TablesFor;
    if i < n {
      TablesGrow(m, r, found, i, n - 1);
    }
  }

  /** The region is page aligned, lies in one half of the address space and
      below the window of the page tables. */
  ghost predicate Plain(found: nat, n: nat) {
    && found % 0x1000 == 0 && found + n * 0x1000 <= WINDOW_BASE
    && (found + n * 0x1000 <= 0x8000_0000_0000 || 0xffff_8000_0000_0000 <= found)
  }

  /** There are frames for the n pages and for the tables that they need, and
      window pages for these. */
  ghost predicate CanBack(s: State, found: nat, n: nat)
    requires Inv(s)
  {
    Plain(found, n)
    && var t := TablesBefore(s.m, s.cur, found, n);
       n + t <= |s.pmm| && Room(s, t)
  }

  // ---------------------------------------------------------- the page loop

  /** The frame behind page j: those before it went to j pages and their tables. */
  ghost function FrameOf(s: State, found: nat, j: nat): Frame
    requires Inv(s) && TablesBefore(s.m, s.cur, found, j) + j < |s.pmm|
  {
    s.pmm[TablesBefore(s.m, s.cur, found, j) + j]
  }

  /** One of the window pages that were mapped while the length grew. */
  ghost predicate InWindow(q: Page, lo: nat, hi: nat) {
    exists len: nat :: lo < len <= hi && len % 0x1000 == 0 && q == WindowPage(len)
  }

  /** Page q of space r is one of the first i pages of the region in `cur`. */
  ghost predicate InRegion(found: nat, i: nat, cur: Frame, r: Frame, q: Page)
    requires ValidPage(q)
  {
    (r == cur || q[0] == KERNEL_SLOT) && exists j :: 0 <= j < i && q == RegionPage(found, j)
  }

  /** Page q of space r is neither in the region nor a new window page. */
  ghost predicate Apart(s0: State, s: State, found: nat, i: nat, r: Frame, q: Page)
    requires ValidPage(q)
  {
    !InRegion(found, i, s.cur, r, q) && !InWindow(q, s0.len, s.len)
  }

  /** A descent finds a table if it did at first or if one of the first i pages
      of the region needed that table. */
  ghost predicate Reach(m: Forest, m': Forest, r: Frame, found: nat, i: nat)
    requires Shaped(m) && Shaped(m') && r in m.vaddrOf && r in m'.vaddrOf
  {
    forall q, k :: ValidPage(q) && 0 <= k <= 3 ==>
      (Descend(m', r, q, k).Some? <==> Descend(m, r, q, k).Some? || Met(found, i, q, k))
  }

  /** Frames and window length after i pages, counted in advance. */
  ghost predicate Counted(s0: State, s: State, found: nat, i: nat) {
    && Inv(s0) && Inv(s)
    && var t := TablesBefore(s0.m, s0.cur, found, i);
    && s.cur == s0.cur && s.m.roots == s0.m.roots
    && t + i <= |s0.pmm| && s.pmm == s0.pmm[t + i..] && s.len == s0.len + t * 0x1000
  }

  /** The first i pages are mapped, each to its own frame, which is no table;
      apart from window pages nothing else has changed. */
  ghost predicate Backed(s0: State, s: State, found: nat, i: nat) {
    && Counted(s0, s, found, i)
    && (forall j :: 0 <= j < i ==>
          && TablesBefore(s0.m, s0.cur, found, j) + j < |s0.pmm|
          && Walk(s.m, s.cur, RegionPage(found, j)) == Some(FrameOf(s0, found, j))
          && FrameOf(s0, found, j) !in s.m.vaddrOf)
    && (forall r, q :: r in s.m.roots && ValidPage(q) && Apart(s0, s, found, i, r, q) ==>
          Walk(s.m, r, q) == Walk(s0.m, r, q))
  }

  ghost predicate BackedTo(s0: State, s: State, found: nat, i: nat) {
    Counted(s0, s, found, i) && Closed(s.m) && Reach(s0.m, s.m, s0.cur, found, i) && Backed(s0, s, found, i)
  }

  /** Different pages of the region get different frames. */
  lemma DistinctFrames(s0: State, s: State, found: nat, n: nat, i: nat, j: nat)
    requires BackedTo(s0, s, found, n) && i < j < n
    ensures TablesBefore(s0.m, s0.cur, found, i) + i < |s0.pmm|
    ensures TablesBefore(s0.m, s0.cur, found, j) + j < |s0.pmm|
    ensures FrameOf(s0, found, i) != FrameOf(s0, found, j)
  {
    hide Linked, RootsAgree, Shaped, Unreferenced, Closed, Reach, TablesBefore, Walk;
    InvKnown(s0);
    TablesGrow(s0.m, s0.cur, found, i, j);
  }

  // ------------------------------------------------------- one page at a time

  lemma InvKnown(s: State)
    requires Inv(s)
    ensures Shaped(s.m) && s.cur in s.m.vaddrOf && s.m.roots <= s.m.vaddrOf.Keys
  {
  }

  /** Different pages of the region are different, also from window pages. */
  lemma PagesApart(found: nat, n: nat, i: nat, j: nat)
    requires Plain(found, n) && i < j < n
    ensures RegionPage(found, i) != RegionPage(found, j)
  {
    hide PageOf;
    SamePage(found + i * 0x1000, found + j * 0x1000);
  }

  lemma WindowApart(found: nat, n: nat, i: nat, len: nat)
    requires Plain(found, n) && i < n && WINDOW_BASE + len < ADDRESS_SPACE
    ensures RegionPage(found, i) != WindowPage(len)
  {
    hide PageOf;
    WindowKernel(len);
    SamePage(found + i * 0x1000, WINDOW_BASE + len);
    assert (found + i * 0x1000) / 0x1000 < WINDOW_BASE / 0x1000;
  }

  /** What `mmap` needs is the number of descents that find nothing. */
  lemma NeedCounts(m: Forest, r: Frame, p: Page)
    requires WellFormed(m) && r in m.roots && ValidPage(p) && !Dangling(m, r, p)
    ensures Need(m, r, p) ==
      One(Descend(m, r, p, 1) == None) + One(Descend(m, r, p, 2) == None) + One(Descend(m, r, p, 3) == None)
  {
    hide Linked, Dangling;
    DescendSteps(m, r, p);
  }

  /** So the tables counted in advance for page i are those its `mmap` makes. */
  lemma NeedForeseen(s0: State, s: State, found: nat, i: nat)
    requires BackedTo(s0, s, found, i)
    ensures !Dangling(s.m, s.cur, RegionPage(found, i))
    ensures Need(s.m, s.cur, RegionPage(found, i)) == TablesFor(s0.m, s0.cur, found, i)
  {
    hide Shaped, Linked, RootsAgree, FreshFrames, Closed, Backed, Descend, Met, Dangling, Need, RegionPage;
    var p := RegionPage(found, i);
    InvKnown(s0);
    InvKnown(s);
    ClosedNeverDangles(s.m, s.cur, p);
    NeedCounts(s.m, s.cur, p);
    forall k | 0 <= k <= 3
      ensures Descend(s.m, s.cur, p, k) == None <==> FirstNeeds(s0.m, s0.cur, found, i, k)
    {
    }
  }

  /** The frame that `pmm_alloc_page` hands out for page i. */
  lemma NextFrame(s0: State, s: State, found: nat, n: nat, i: nat)
    requires BackedTo(s0, s, found, i) && CanBack(s0, found, n) && i < n
    ensures Shaped(s0.m) && s0.cur in s0.m.vaddrOf
    ensures TablesBefore(s0.m, s0.cur, found, i) + i < |s0.pmm|
    ensures |s.pmm| > 0 && s.pmm[0] == FrameOf(s0, found, i) && s.pmm[0] % 0x1000 == 0
    ensures s.pmm[0] !in s.m.vaddrOf && s.pmm[0] !in s.pmm[1..]
    ensures Inv(s.(pmm := s.pmm[1..]))
  {
    hide Linked, RootsAgree, Shaped, Closed, Backed, Reach, Unreferenced, TablesBefore, Room;
    InvKnown(s0);
    TablesGrow(s0.m, s0.cur, found, i, n);
    FreshSuffix(s.m, s.pmm, 1);
  }

  /** Why its `mmap` finds room. */
  lemma NextRoom(s0: State, s: State, found: nat, n: nat, i: nat)
    requires BackedTo(s0, s, found, i) && CanBack(s0, found, n) && i < n && |s.pmm| > 0
    requires Inv(s.(pmm := s.pmm[1..]))
    ensures s.cur in s.m.roots && WellFormed(s.m)
    ensures Room(s.(pmm := s.pmm[1..]), Need(s.m, s.cur, RegionPage(found, i)))
  {
    hide Linked, RootsAgree, Shaped, Closed, FreshFrames, Backed, Descend, Reach, Need, Dangling, RegionPage, LeafReady, TablesFor;
    InvKnown(s0);
    TablesGrow(s0.m, s0.cur, found, i + 1, n);
    NeedForeseen(s0, s, found, i);
    var s1 := s.(pmm := s.pmm[1..]);
    var t := TablesBefore(s0.m, s0.cur, found, i);
    forall k | 1 <= k <= Need(s1.m, s1.cur, RegionPage(found, i))
      ensures LeafReady(s1, s1.len + k * 0x1000)
    {
      assert LeafReady(s0, s0.len + (t + k) * 0x1000);
      assert s0.len + (t + k) * 0x1000 == s1.len + k * 0x1000;
      StaysReady(s0, s, found, i, s1.len + k * 0x1000);
      ReadyAnyFrames(s, s1, s1.len + k * 0x1000);
    }
  }

  lemma ReadyAnyFrames(s: State, s1: State, len: nat)
    requires Inv(s) && Inv(s1) && s1.m == s.m && s1.cur == s.cur && LeafReady(s, len)
    ensures LeafReady(s1, len)
  {
  }

  lemma StaysReady(s0: State, s: State, found: nat, i: nat, len: nat)
    requires BackedTo(s0, s, found, i) && LeafReady(s0, len)
    ensures LeafReady(s, len)
  {
    hide Linked, RootsAgree, Shaped, FreshFrames, Closed, Backed, Descend, WindowPage, Met;
  }

  /** After `mmap` of page i the descents are those of i + 1 pages. */
  lemma ReachStep(m0: Forest, m: Forest, m': Forest, r: Frame, found: nat, i: nat)
    requires Shaped(m0) && Shaped(m) && Shaped(m') && r in m0.vaddrOf && r in m.roots && r in m.vaddrOf
    requires Grew(m, m', r, RegionPage(found, i)) && r in m'.vaddrOf && Reach(m0, m, r, found, i)
    requires Descend(m', r, RegionPage(found, i), 3).Some?
    ensures Reach(m0, m', r, found, i + 1)
  {
    hide Shaped, Grew, Reach, Descend, RegionPage;
    forall q, k: nat | ValidPage(q) && k <= 3
      ensures Descend(m', r, q, k).Some? <==> Descend(m0, r, q, k).Some? || Met(found, i + 1, q, k)
    {
      ReachAt(m0, m, r, found, i, q, k);
      GrewFact(m, m', r, RegionPage(found, i), r, q, k);
      MetStep(found, i, q, k);
      if q[..k] == RegionPage(found, i)[..k] {
        DescendPrefix(m', r, q, RegionPage(found, i), k);
        DescendPart(m', r, RegionPage(found, i), k);
      }
    }
    ReachIntro(m0, m', r, found, i + 1);
  }

  lemma ReachAt(m: Forest, m': Forest, r: Frame, found: nat, i: nat, q: Page, k: nat)
    requires Shaped(m) && Shaped(m') && r in m.vaddrOf && r in m'.vaddrOf && Reach(m, m', r, found, i)
    requires ValidPage(q) && k <= 3
    ensures Descend(m', r, q, k).Some? <==> Descend(m, r, q, k).Some? || Met(found, i, q, k)
  {
  }

  lemma ReachIntro(m: Forest, m': Forest, r: Frame, found: nat, i: nat)
    requires Shaped(m) && Shaped(m') && r in m.vaddrOf && r in m'.vaddrOf
    requires forall q, k :: ValidPage(q) && 0 <= k <= 3 ==>
      (Descend(m', r, q, k).Some? <==> Descend(m, r, q, k).Some? || Met(found, i, q, k))
    ensures Reach(m, m', r, found, i)
  {
  }

  lemma MetStep(found: nat, i: nat, q: Page, k: nat)
    requires ValidPage(q) && k <= 3
    ensures Met(found, i + 1, q, k) <==> Met(found, i, q, k) || RegionPage(found, i)[..k] == q[..k]
  {
  }

  lemma {:induction false} DescendPart(m: Forest, r: Frame, p: Page, k: nat)
    requires Shaped(m) && r in m.vaddrOf && ValidPage(p) && k <= 3 && Descend(m, r, p, 3).Some?
    ensures Descend(m, r, p, k).Some?
    decreases 3 - k
  {
    if k < 3 {
      DescendPart(m, r, p, k + 1);
    }
  }

  lemma {:induction false} WindowPages(len: nat, frames: seq<Frame>, q: Page)
    requires q in Window(len, frames) && len % 0x1000 == 0
    ensures InWindow(q, len, len + |frames| * 0x1000)
  {
    hide WindowPage;
    var hi := len + |frames| * 0x1000;
    if q != WindowPage(hi) {
      WindowPages(len, frames[..|frames| - 1], q);
    } else {
      assert len < hi <= hi && hi % 0x1000 == 0;
    }
  }

  lemma {:induction false} WindowKeys(len: nat, frames: seq<Frame>, f: Frame)
    requires f in WindowTables(len, frames)
    ensures f in frames
  {
    if f != frames[|frames| - 1] {
      WindowKeys(len, frames[..|frames| - 1], f);
    }
  }

  /** The walk of page q in space r after `mmap` of page i. */
  lemma BackWalk(s0: State, s: State, s': State, found: nat, n: nat, i: nat, x: Frame, r: Frame, q: Page)
    requires BackedTo(s0, s, found, i) && CanBack(s0, found, n) && i < n && Inv(s')
    requires r in s.m.roots && ValidPage(q) && s'.cur == s.cur
    requires s.len <= s'.len && s'.len % 0x1000 == 0
    requires exists w ::
      Mapped(s.m, s'.m, s.cur, RegionPage(found, i), x, w) && forall p :: p in w ==> InWindow(p, s.len, s'.len)
    ensures r in s'.m.vaddrOf && r in s0.m.vaddrOf
    ensures q == RegionPage(found, i) && (r == s.cur || q[0] == KERNEL_SLOT) ==> Walk(s'.m, r, q) == Some(x)
    ensures forall j :: 0 <= j < i && q == RegionPage(found, j) && r == s.cur ==> Walk(s'.m, r, q) == Walk(s.m, r, q)
    ensures Apart(s0, s', found, i + 1, r, q) ==> Walk(s'.m, r, q) == Walk(s0.m, r, q)
  {
    hide Linked, RootsAgree, Shaped, FreshFrames, Closed, Reach, Walk, WindowPage, RegionPage, TablesBefore, Room, InWindow, InRegion;
    InvKnown(s0);
    InvKnown(s);
    InvKnown(s');
    var w :| Mapped(s.m, s'.m, s.cur, RegionPage(found, i), x, w) && forall p :: p in w ==> InWindow(p, s.len, s'.len);
    forall j | 0 <= j < i && q == RegionPage(found, j) && r == s.cur
      ensures Walk(s'.m, r, q) == Walk(s.m, r, q)
    {
      PagesApart(found, n, j, i);
      if q in w {
        NotWindow(found, n, j, s.len, s'.len);
      }
    }
    if Apart(s0, s', found, i + 1, r, q) {
      Outside(found, i, s.cur, r, q);
      WindowWider(q, s0.len, s.len, s'.len);
      assert Apart(s0, s, found, i, r, q);
    }
  }

  lemma NotWindow(found: nat, n: nat, i: nat, lo: nat, hi: nat)
    requires Plain(found, n) && i < n && WINDOW_BASE + hi < ADDRESS_SPACE
    ensures !InWindow(RegionPage(found, i), lo, hi)
  {
    hide RegionPage, WindowPage;
    forall len: nat | lo < len <= hi
      ensures RegionPage(found, i) != WindowPage(len)
    {
      WindowApart(found, n, i, len);
    }
  }

  lemma Outside(found: nat, i: nat, cur: Frame, r: Frame, q: Page)
    requires ValidPage(q) && !InRegion(found, i + 1, cur, r, q)
    ensures !InRegion(found, i, cur, r, q)
    ensures !(q == RegionPage(found, i) && (r == cur || q[0] == KERNEL_SLOT))
  {
  }

  lemma WindowWider(q: Page, a: nat, b: nat, c: nat)
    requires a <= b <= c
    ensures InWindow(q, a, b) || InWindow(q, b, c) ==> InWindow(q, a, c)
  {
  }

  /** Frames of earlier pages are no tables after `mmap` of page i either. */
  lemma FramesStay(s0: State, s: State, s': State, found: nat, n: nat, i: nat, j: nat)
    requires BackedTo(s0, s, found, i) && CanBack(s0, found, n) && j <= i < n && Inv(s')
    requires exists c: nat, len: nat :: c < |s.pmm| && s'.m.vaddrOf == s.m.vaddrOf + WindowTables(len, s.pmm[1..][..c])
    ensures Shaped(s0.m) && s0.cur in s0.m.vaddrOf
    ensures TablesBefore(s0.m, s0.cur, found, j) + j < |s0.pmm|
    ensures FrameOf(s0, found, j) !in s'.m.vaddrOf
  {
    hide Linked, RootsAgree, Shaped, Closed, Reach, Unreferenced, TablesBefore, Room, Walk, WindowTables, RegionPage, Apart;
    InvKnown(s0);
    NextFrame(s0, s, found, n, i);
    TablesGrow(s0.m, s0.cur, found, j, i);
    var c: nat, len: nat :| c < |s.pmm| && s'.m.vaddrOf == s.m.vaddrOf + WindowTables(len, s.pmm[1..][..c]);
    var x := FrameOf(s0, found, j);
    forall k | 0 <= k < |s.pmm| - 1
      ensures s.pmm[1..][k] != x
    {
      assert s.pmm[1..][k] == s0.pmm[TablesBefore(s0.m, s0.cur, found, i) + i + 1 + k];
    }
    if x in WindowTables(len, s.pmm[1..][..c]) {
      WindowKeys(len, s.pmm[1..][..c], x);
    }
  }

  /** What one `mmap` has done, as far as the page loop is concerned. */
  lemma MmapParts(s: State, s': State, p: Page, x: Frame, ok: bool)
    requires Inv(s) && ValidPage(p) && Closed(s.m) && MmapDone(s, s', s.cur, p, x, ok)
    requires !Dangling(s.m, s.cur, p)
    ensures ok && Inv(s') && Closed(s'.m) && s'.cur == s.cur && s'.m.roots == s.m.roots
    ensures var c := Need(s.m, s.cur, p);
      && c <= |s.pmm| && s'.pmm == s.pmm[c..] && s'.len == s.len + c * 0x1000
      && Shaped(s.m) && Shaped(s'.m) && s.cur in s.m.vaddrOf && s.cur in s'.m.vaddrOf
      && Mapped(s.m, s'.m, s.cur, p, x, Window(s.len, s.pmm[..c]))
      && s'.m.vaddrOf == s.m.vaddrOf + WindowTables(s.len, s.pmm[..c])
      && Grew(s.m, s'.m, s.cur, p) && Descend(s'.m, s.cur, p, 3).Some?
  {
    hide Linked, RootsAgree, Shaped, FreshFrames, Closed, Grew, WindowTables, Window, Walk, Need, Dangling, Descend, SameDirectories, Keeps, LeafReady;
    InvKnown(s);
    InvKnown(s');
  }

  /** One turn of the page loop. */
  lemma BackStep(s0: State, s: State, s': State, found: nat, n: nat, i: nat, ok: bool)
    requires BackedTo(s0, s, found, i) && CanBack(s0, found, n) && i < n && |s.pmm| > 0
    requires var s1 := s.(pmm := s.pmm[1..]);
      Inv(s1) && MmapDone(s1, s', s.cur, RegionPage(found, i), s.pmm[0], ok)
    ensures ok && BackedTo(s0, s', found, i + 1)
  {
    hide Linked, RootsAgree, Shaped, FreshFrames, Closed, Reach, Grew, TablesFor, Room, Walk, WindowTables, Window, RegionPage, Apart, Need, Dangling, Mapped, Descend, MmapDone, Backed;
    InvKnown(s0);
    InvKnown(s);
    NextFrame(s0, s, found, n, i);
    NeedForeseen(s0, s, found, i);
    var s1 := s.(pmm := s.pmm[1..]);
    MmapParts(s1, s', RegionPage(found, i), s.pmm[0], ok);
    ReachStep(s0.m, s.m, s'.m, s0.cur, found, i);
    BackCounted(s0, s, s', found, i);
    BackPages(s0, s, s', found, n, i, Need(s.m, s.cur, RegionPage(found, i)));
  }

  lemma BackCounted(s0: State, s: State, s': State, found: nat, i: nat)
    requires Inv(s0) && Inv(s) && Inv(s') && Counted(s0, s, found, i) && |s.pmm| > 0
    requires Shaped(s0.m) && s0.cur in s0.m.vaddrOf
    requires var c := TablesFor(s0.m, s0.cur, found, i);
      && c < |s.pmm| && s'.cur == s.cur && s'.m.roots == s.m.roots
      && s'.pmm == s.pmm[1..][c..] && s'.len == s.len + c * 0x1000
    ensures Counted(s0, s', found, i + 1)
  {
    hide WellFormed, FreshFrames, TablesFor;
  }

  /** Page p was mapped to the next frame, with c tables from those behind it. */
  ghost predicate PageDone(s: State, s': State, p: Page, c: nat) {
    && Shaped(s.m) && Shaped(s'.m) && c < |s.pmm| && s'.len == s.len + c * 0x1000
    && Mapped(s.m, s'.m, s.cur, p, s.pmm[0], Window(s.len, s.pmm[1..][..c]))
    && s'.m.vaddrOf == s.m.vaddrOf + WindowTables(s.len, s.pmm[1..][..c])
  }

  lemma BackPages(s0: State, s: State, s': State, found: nat, n: nat, i: nat, c: nat)
    requires Inv(s0) && Inv(s') && Counted(s0, s', found, i + 1) && CanBack(s0, found, n) && i < n
    requires BackedTo(s0, s, found, i) && |s.pmm| > 0 && s'.m.roots == s.m.roots && s'.cur == s.cur
    requires s'.len % 0x1000 == 0
    requires PageDone(s, s', RegionPage(found, i), c)
    ensures Backed(s0, s', found, i + 1)
  {
    hide Linked, RootsAgree, Shaped, FreshFrames, Closed, Reach, TablesBefore, Room, Walk, WindowTables, Window, RegionPage, Apart, Need, Mapped, Descend;
    InvKnown(s0);
    InvKnown(s');
    NextFrame(s0, s, found, n, i);
    BackWindow(s.len, s.pmm[1..][..c]);
    forall j | 0 <= j < i + 1
      ensures TablesBefore(s0.m, s0.cur, found, j) + j < |s0.pmm|
      ensures Walk(s'.m, s'.cur, RegionPage(found, j)) == Some(FrameOf(s0, found, j))
      ensures FrameOf(s0, found, j) !in s'.m.vaddrOf
    {
      FramesStay(s0, s, s', found, n, i, j);
      BackWalk(s0, s, s', found, n, i, s.pmm[0], s.cur, RegionPage(found, j));
    }
    forall r, q | r in s'.m.roots && ValidPage(q) && Apart(s0, s', found, i + 1, r, q)
      ensures Walk(s'.m, r, q) == Walk(s0.m, r, q)
    {
      BackWalk(s0, s, s', found, n, i, s.pmm[0], r, q);
    }
  }

  lemma BackWindow(len: nat, frames: seq<Frame>)
    requires len % 0x1000 == 0
    ensures forall p :: p in Window(len, frames) ==> InWindow(p, len, len + |frames| * 0x1000)
  {
    hide InWindow, Window;
    forall p | p in Window(len, frames)
      ensures InWindow(p, len, len + |frames| * 0x1000)
    {
      WindowPages(len, frames, p);
    }
  }

  lemma BackStart(s: State, found: nat)
    requires Inv(s) && Closed(s.m)
    ensures BackedTo(s, s, found, 0)
  {
    hide Linked, Shaped, FreshFrames, Descend, RegionPage;
    assert s.pmm[0..] == s.pmm;
  }

  /** The events of the page loop: a frame is handed out, then mapped. */
  ghost predicate LoopEvents(cur: Frame, found: nat, n: nat, es: seq<Event>) {
    && |es| == 2 * n
    && forall j :: 0 <= j < n ==>
         es[2 * j].Grab? && es[2 * j + 1] == Map(cur, RegionPage(found, j), es[2 * j].x, true)
  }

  lemma LoopEventsStep(cur: Frame, found: nat, n: nat, es: seq<Event>, x: Frame)
    requires LoopEvents(cur, found, n, es)
    ensures LoopEvents(cur, found, n + 1, es + [Grab(x)] + [Map(cur, RegionPage(found, n), x, true)])
  {
    hide RegionPage;
    var fs := es + [Grab(x)] + [Map(cur, RegionPage(found, n), x, true)];
    forall j | 0 <= j < n + 1
      ensures fs[2 * j].Grab? && fs[2 * j + 1] == Map(cur, RegionPage(found, j), fs[2 * j].x, true)
    {
      if j < n {
        assert fs[2 * j] == es[2 * j] && fs[2 * j + 1] == es[2 * j + 1];
      }
    }
  }

  /** One turn of the loop is two steps of a run. */
  lemma LoopRun(ss: seq<State>, es: seq<Event>, s: State, s': State, page: Page)
    requires IsRun(ss, es) && ss[|es|] == s && |s.pmm| > 0 && Inv(s) && s.cur in s.m.roots && ValidPage(page)
    requires var s1 := s.(pmm := s.pmm[1..]); Inv(s1) && MmapDone(s1, s', s.cur, page, s.pmm[0], true) && Inv(s')
    ensures IsRun(ss + [s.(pmm := s.pmm[1..])] + [s'], es + [Grab(s.pmm[0])] + [Map(s.cur, page, s.pmm[0], true)])
  {
    hide Inv, MmapDone, IsRun;
    var s1 := s.(pmm := s.pmm[1..]);
    RunLength(ss, es);
    assert Transition(s, s1, Grab(s.pmm[0]));
    RunExtend(ss, es, s1, Grab(s.pmm[0]));
    RunExtend(ss + [s1], es + [Grab(s.pmm[0])], s', Map(s.cur, page, s.pmm[0], true));
  }

  lemma RunLength(ss: seq<State>, es: seq<Event>)
    requires IsRun(ss, es)
    ensures |ss| == |es| + 1
  {
  }

  lemma RunStart(s: State)
    requires Inv(s)
    ensures IsRun([s], [])
  {
  }

  /** The loop of `vmm_alloc` over the pages of [found, found + length), for a
      region without a given physical address: every page is mapped, each to a
      frame of its own, and `mmap` never fails. The loop is a run of events. */
  method BackRegion(pager: Pager, found: nat, length: nat) returns (ok: bool, ghost ss: seq<State>, ghost es: seq<Event>)
    requires pager.Valid() && Closed(pager.Now().m) && CanBack(pager.Now(), found, PageAlign(length) / 0x1000)
    modifies pager
    ensures ok && pager.Valid() && BackedTo(old(pager.Now()), pager.Now(), found, PageAlign(length) / 0x1000)
    ensures IsRun(ss, es) && LoopEvents(old(pager.cur), found, PageAlign(length) / 0x1000, es)
    ensures ss[0] == old(pager.Now()) && ss[|es|] == pager.Now()
  {
    hide Inv, MmapDone, BackedTo, CanBack, Need, Room, RegionPage, IsRun, LoopEvents, Contiguous, Index, Closed, WellFormed, FrameOf;
    ghost var s0 := pager.Now();
    ghost var n := PageAlign(length) / 0x1000;
    var i, vaddr := 0, found;
    ss, es := [s0], [];
    BackStart(s0, found);
    RunStart(s0);
    assert LoopEvents(s0.cur, found, 0, []) by { NoEvents(s0.cur, found); }
    while i < (length + 0xfff) / 0x1000
      invariant 0 <= i <= n && vaddr == found + i * 0x1000
      invariant pager.Valid() && BackedTo(s0, pager.Now(), found, i) && pager.cur == s0.cur
      invariant IsRun(ss, es) && |ss| == |es| + 1 && LoopEvents(s0.cur, found, i, es)
      invariant ss[0] == s0 && ss[|es|] == pager.Now()
    {
      ghost var s := pager.Now();
      NextFrame(s0, s, found, n, i);
      NextRoom(s0, s, found, n, i);
      var frame := pager.pmm[0];
      pager.pmm := pager.pmm[1..];
      PageTables.Aligned(frame);
      RegionPageIs(found, i);
      var result := pager.Mmap(pager.currentRoot, pager.cur, frame, vaddr);
      BackStep(s0, s, pager.Now(), found, n, i, result == Success);
      BackCur(s0, pager.Now(), found, i + 1);
      if result != Success {
        return false, ss, es;
      }
      LoopRun(ss, es, s, pager.Now(), RegionPage(found, i));
      LoopEventsStep(s0.cur, found, i, es, frame);
      ss := ss + [s.(pmm := s.pmm[1..])] + [pager.Now()];
      es := es + [Grab(frame)] + [Map(s.cur, RegionPage(found, i), frame, true)];
      vaddr := vaddr + 0x1000;
      i := i + 1;
    }
    return true, ss, es;
  }

  lemma NoEvents(cur: Frame, found: nat)
    ensures LoopEvents(cur, found, 0, [])
  {
  }

  lemma BackCur(s0: State, s: State, found: nat, i: nat)
    requires BackedTo(s0, s, found, i)
    ensures s.cur == s0.cur
  {
  }

  lemma RegionPageIs(found: nat, i: nat)
    ensures RegionPage(found, i) == PageOf(found + i * 0x1000)
  {
  }

  /** Every address of the region translates, in the current space, to the
      frame of its page. */
  lemma EveryAddressMapped(s0: State, s: State, found: nat, n: nat, a: nat)
    requires BackedTo(s0, s, found, n) && Plain(found, n) && found <= a < found + n * 0x1000
    ensures var i := (a - found) / 0x1000;
      && i < n && TablesBefore(s0.m, s0.cur, found, i) + i < |s0.pmm|
      && Walk(s.m, s.cur, PageOf(a)) == Some(FrameOf(s0, found, i))
  {
    hide PageOf, Linked, RootsAgree, Shaped, Unreferenced, Closed, Reach, TablesBefore, Walk;
    var i := (a - found) / 0x1000;
    assert (found + i * 0x1000) / 0x1000 == a / 0x1000;
    SamePage(a, found + i * 0x1000);
  }

  /** Where `vmm_alloc` puts the region. */
  ghost predicate Target(es: seq<Extent>, start: nat, length: nat, found: nat) {
    if start == 0 then exists k: nat :: FirstGap(es, length, k) && found == es[k].End() else found == start
  }

  /** `vmm_alloc` as a whole, for a region without a given physical address: the
      list edit and the page loop. */
  method VmmAlloc(spaces: RegionList.Spaces, pager: Pager, startRegion: nat, bytes: nat)
    returns (r: Option<nat>, ghost k: nat, ghost n: RegionList.Region?)
    requires spaces.Valid() && pager.Valid() && Closed(pager.Now().m)
    requires var es, start := RegionList.Extents(spaces.Current()), PageAlignDown(startRegion);
      forall found :: Target(es, start, PageAlign(bytes), found) ==>
           CanBack(pager.Now(), found, PageAlign(bytes) / 0x1000)
    modifies pager, spaces`priv, spaces`tail, spaces.Objects()`next
    ensures spaces.Valid() && pager.Valid()
    ensures var es, start, length := old(RegionList.Extents(spaces.Current())), PageAlignDown(startRegion), PageAlign(bytes);
      && Searched(es, start, length, k, r)
      && (start != 0 ==> (r == None <==> Refuses(es, start, length)))
      && (r == None ==> spaces.priv == old(spaces.priv) && spaces.tail == old(spaces.tail) && pager.Now() == old(pager.Now()))
      && (r.Some? ==>
            && Target(es, start, length, r.value)
            && n != null && n.base == r.value && n.length == length && !n.mmio
            && RegionList.Spaces.Added(old(spaces.priv), old(spaces.tail), spaces.priv, spaces.tail, spaces.current, k, n)
            && BackedTo(old(pager.Now()), pager.Now(), r.value, length / 0x1000))
      && (old(spaces.AllDisjoint()) ==>
            (spaces.AllDisjoint() <==> r == None || start == 0 || InGap(es, start, length)))
  {
    hide Inv, BackedTo, CanBack, StopsAt, Rejected, FirstGap, NoGap, Refuses, PageAlign, PageAlignDown, InGap, RegionList.SpaceOk, RegionList.Extents, RegionList.Spaces.Added, RegionList.Spaces.DisjointIn, RegionList.Spaces.ClearZones, RegionList.Spaces.OutsideZones, GapAfter;
    r, k, n := spaces.VmmAlloc(startRegion, bytes, false);
    if r.Some? {
      LengthAligned(bytes);
      assert Target(old(RegionList.Extents(spaces.Current())), PageAlignDown(startRegion), PageAlign(bytes), r.value);
      assert forall o :: o in spaces.Objects() ==> allocated(o);
      var ok;
      ghost var ss, es;
      ok, ss, es := BackRegion(pager, r.value, PageAlign(bytes));
    }
  }

  lemma LengthAligned(bytes: nat)
    ensures PageAlign(PageAlign(bytes)) == PageAlign(bytes)
  {
  }
}
