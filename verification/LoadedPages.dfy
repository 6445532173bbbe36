/** The loader over the page tables: the flat page map with which it is stated is
    what walking the tables of its space gives. */
module LoadedPages {
  import opened Common
  import opened Address
  import opened TableForest
  import opened PageTables
  import opened RegionSpec
  import Backing
  import RegionList
  import SegmentMemory

  /** Page numbers of the lower half. */
  const USER_PAGES := 0x8_0000_0000

  /** The page map of a loader is the lower half of the current space. */
  ghost predicate PagesAre(sp: SegmentMemory.Space, s: State) {
    && Inv(s)
    && forall p: nat :: p < USER_PAGES ==> Walk(s.m, s.cur, UserPage(p)) == Entered(sp, p)
  }

  ghost function UserPage(p: nat): (q: Page)
    ensures ValidPage(q)
  {
    PageOf(p * 0x1000)
  }

  ghost function Entered(sp: SegmentMemory.Space, p: nat): Option<Frame> {
    if p in sp.pages then Some(sp.pages[p]) else None
  }

  lemma UserPageLow(p: nat)
    requires p < USER_PAGES
    ensures Canonical(p * 0x1000) && UserPage(p)[0] != KERNEL_SLOT
  {
    var a := p * 0x1000;
    DivUnique(a, 0x80_0000_0000, p / 0x800_0000, a - (p / 0x800_0000) * 0x80_0000_0000);
    assert p / 0x800_0000 < 256;
  }

  /** The walks of the lower half after a region there was backed. */
  lemma RegionWalks(s0: State, s: State, found: nat, n: nat, p: nat)
    requires Backing.BackedTo(s0, s, found, n) && Backing.Plain(found, n) && found + n * 0x1000 <= 0x8000_0000_0000
    requires p < USER_PAGES
    ensures Inv(s0) && Inv(s) && s0.cur in s0.m.vaddrOf && s.cur in s.m.vaddrOf && s.cur == s0.cur
    ensures var j := p - found / 0x1000;
      if 0 <= j < n
      then Backing.TablesBefore(s0.m, s0.cur, found, j) + j < |s0.pmm|
           && Walk(s.m, s.cur, UserPage(p)) == Some(Backing.FrameOf(s0, found, j))
      else Walk(s.m, s.cur, UserPage(p)) == Walk(s0.m, s0.cur, UserPage(p))
  {
    hide Walk, Linked, Shaped, FreshFrames, Closed, Backing.Reach, Backing.TablesBefore, Backing.FrameOf, PageOf, Backing.Plain;
    UserPageLow(p);
    var j := p - found / 0x1000;
    if 0 <= j < n {
      UserPageIs(found, n, j, p);
    } else {
      NotInRegion(s0, s, found, n, p);
    }
  }

  lemma UserPageIs(found: nat, n: nat, j: nat, p: nat)
    requires Backing.Plain(found, n) && p == found / 0x1000 + j
    ensures UserPage(p) == Backing.RegionPage(found, j)
  {
    assert p * 0x1000 == found + j * 0x1000;
  }

  lemma NotInRegion(s0: State, s: State, found: nat, n: nat, p: nat)
    requires Backing.Plain(found, n) && found + n * 0x1000 <= 0x8000_0000_0000 && p < USER_PAGES
    requires !(0 <= p - found / 0x1000 < n) && WINDOW_BASE + s.len < ADDRESS_SPACE
    ensures Backing.Apart(s0, s, found, n, s.cur, UserPage(p))
  {
    hide PageOf, Index;
    UserPageLow(p);
    forall j | 0 <= j < n
      ensures UserPage(p) != Backing.RegionPage(found, j)
    {
      var q := found / 0x1000 + j;
      UserPageIs(found, n, j, q);
      UserPageLow(q);
      SamePage(p * 0x1000, q * 0x1000);
    }
    forall len: nat | s0.len < len <= s.len
      ensures UserPage(p) != WindowPage(len)
    {
      WindowKernel(len);
    }
  }

  /** What the loader's page map becomes with one segment is what `vmm_alloc`
      makes of the tables: its frames are those the page loop takes. */
  lemma SegmentWalks(sp: SegmentMemory.Space, file: seq<Byte>, h: SegmentMemory.Phdr, i: nat, s0: State, s: State)
    requires SegmentMemory.Sound(sp) && sp.regions != [] && h.ptype == SegmentMemory.PT_LOAD
    requires h.offset + h.filesz <= |file| && SegmentMemory.LoadSegment(sp, file, h, i).Running?
    requires var found, n := SegmentMemory.FoundIn(Some(sp.regions), h), SegmentMemory.Pages(h);
      && PagesAre(sp, s0) && Backing.BackedTo(s0, s, found, n) && Backing.Plain(found, n)
      && found + n * 0x1000 <= 0x8000_0000_0000 && n <= |sp.free| && Supplies(sp.free, s0, found, n)
    ensures PagesAre(SegmentMemory.LoadSegment(sp, file, h, i).sp, s)
  {
    hide Walk, Linked, RootsAgree, Shaped, FreshFrames, Backing.BackedTo, Backing.Plain, SegmentMemory.LoadSegment, SegmentMemory.Sound, SegmentMemory.FoundIn, SegmentMemory.Pages, Backing.FrameOf, Backing.TablesBefore, UserPage;
    var found, n := SegmentMemory.FoundIn(Some(sp.regions), h), SegmentMemory.Pages(h);
    var sp' := SegmentMemory.LoadSegment(sp, file, h, i).sp;
    RegionWalks(s0, s, found, n, 0);
    forall p: nat | p < USER_PAGES
      ensures Walk(s.m, s.cur, UserPage(p)) == Entered(sp', p)
    {
      RegionWalks(s0, s, found, n, p);
      SegmentMemory.SegmentPages(sp, file, h, i, found, p);
      assert Walk(s0.m, s0.cur, UserPage(p)) == Entered(sp, p);
      var j := p - found / 0x1000;
      if 0 <= j < n {
        assert sp.free[j] == Backing.FrameOf(s0, found, j);
      }
    }
  }

  /** The frames the loader counts on are those the page loop will take, which
      leaves out the frames that go to new tables. */
  ghost predicate Supplies(free: seq<Frame>, s: State, found: nat, n: nat)
    requires Inv(s) && n <= |free|
  {
    forall j :: 0 <= j < n ==>
      Backing.TablesBefore(s.m, s.cur, found, j) + j < |s.pmm| && free[j] == Backing.FrameOf(s, found, j)
  }

  /** One segment on the objects themselves: `vmm_alloc` on the linked lists and
      the page tables of the current space leaves the list and the page map that
      the loader is stated with. */
  method AllocSegment(spaces: RegionList.Spaces, pager: Pager, h: SegmentMemory.Phdr, ghost sp: SegmentMemory.Space,
                      ghost file: seq<Byte>, ghost i: nat) returns (r: Option<nat>)
    requires spaces.Valid() && pager.Valid() && Closed(pager.Now().m)
    requires SegmentMemory.Sound(sp) && h.ptype == SegmentMemory.PT_LOAD && h.offset + h.filesz <= |file|
    requires sp.regions == RegionList.Extents(spaces.Current()) && sp.regions != [] && PagesAre(sp, pager.Now())
    requires var length, n := SegmentMemory.Length(h), SegmentMemory.Pages(h);
      (forall found: nat :: Backing.Target(sp.regions, SegmentMemory.Start(h), length, found) ==>
            && Backing.CanBack(pager.Now(), found, n) && found + n * 0x1000 <= 0x8000_0000_0000
            && n <= |sp.free| && Supplies(sp.free, pager.Now(), found, n))
    modifies pager, spaces`priv, spaces`tail, spaces.Objects()`next
    ensures spaces.Valid() && pager.Valid()
    ensures r == None ==> SegmentMemory.LoadSegment(sp, file, h, i) == SegmentMemory.Panic
    ensures r.Some? ==> r.value == SegmentMemory.FoundIn(Some(sp.regions), h)
    ensures SegmentMemory.LoadSegment(sp, file, h, i).Running? ==>
      var sp' := SegmentMemory.LoadSegment(sp, file, h, i).sp;
      r.Some? && r.value != 0 && sp'.regions == RegionList.Extents(spaces.Current()) && PagesAre(sp', pager.Now())
  {
    hide Inv, Closed, PagesAre, Supplies, Backing.CanBack, Backing.BackedTo, SegmentMemory.Sound, SegmentMemory.LoadSegment, Searched, RegionSpec.Place, InGap, PageAlign, PageAlignDown, RegionList.SpaceOk, RegionList.Extents, RegionList.Spaces.Added, RegionList.Spaces.DisjointIn;
    ghost var s0, p, t := pager.Now(), spaces.priv, spaces.tail;
    ghost var k, n;
    assert SegmentMemory.Start(h) == PageAlignDown(h.vaddr) && SegmentMemory.Length(h) == PageAlign(h.memsz);
    assert SegmentMemory.Pages(h) == PageAlign(h.memsz) / 0x1000;
    forall found: nat | Backing.Target(RegionList.Extents(spaces.Current()), PageAlignDown(h.vaddr), PageAlign(h.memsz), found)
      ensures Backing.CanBack(pager.Now(), found, PageAlign(h.memsz) / 0x1000)
    {
      assert Backing.Target(sp.regions, SegmentMemory.Start(h), SegmentMemory.Length(h), found);
    }
    r, k, n := Backing.VmmAlloc(spaces, pager, h.vaddr, h.memsz);
    SegmentPlace(sp, file, h, i, k, r);
    if r.Some? {
      RegionList.Spaces.AddedCurrent(p, t, spaces.priv, spaces.tail, spaces.current, k, n);
      if SegmentMemory.LoadSegment(sp, file, h, i).Running? {
        PlainBack(s0, r.value, SegmentMemory.Pages(h));
        SegmentWalks(sp, file, h, i, s0, pager.Now());
      }
    }
  }

  lemma PlainBack(s: State, found: nat, n: nat)
    requires Inv(s) && Backing.CanBack(s, found, n)
    ensures Backing.Plain(found, n)
  {
  }

  /** The loader places a segment where `vmm_alloc` does. */
  lemma SegmentPlace(sp: SegmentMemory.Space, file: seq<Byte>, h: SegmentMemory.Phdr, i: nat, k: nat, r: Option<nat>)
    requires SegmentMemory.Sound(sp) && sp.regions != [] && h.ptype == SegmentMemory.PT_LOAD
    requires h.offset + h.filesz <= |file|
    requires var es, start, length := sp.regions, PageAlignDown(h.vaddr), PageAlign(h.memsz);
      Searched(es, start, length, k, r)
    ensures r == None ==> SegmentMemory.LoadSegment(sp, file, h, i) == SegmentMemory.Panic
    ensures r.Some? ==> r.value == SegmentMemory.FoundIn(Some(sp.regions), h)
    ensures SegmentMemory.LoadSegment(sp, file, h, i).Running? ==>
      && r.Some? && r.value != 0 && k < |sp.regions|
      && SegmentMemory.LoadSegment(sp, file, h, i).sp.regions ==
         Insert(sp.regions, k + 1, Extent(r.value, SegmentMemory.Length(h)))
  {
    hide RegionSpec.Place, PageAlign, PageAlignDown, SegmentMemory.Sound, SegmentMemory.Copy, SegmentMemory.MapPages, Insert, SegmentMemory.At, SegmentMemory.Next, SegmentMemory.Maps;
    PlaceIs(sp.regions, SegmentMemory.Start(h), SegmentMemory.Length(h), k, r);
    SegmentMemory.SegmentEffect(sp, file, h, i, SegmentMemory.FoundIn(Some(sp.regions), h));
  }
}
