/** What holds over every run of `create_vmm`, `switch_vm_space`, `mmap` and
    `pmm_alloc_page`. */
module AddressSpaces {
  import opened Common
  import opened Address
  import opened TableForest
  import opened PageTables

  datatype Event =
    | Map(r: Frame, page: Page, x: Frame, ok: bool)
    | Create(g: Frame)
    | Switch(r: Frame)
    | Grab(x: Frame)

  ghost predicate Transition(s: State, s': State, e: Event) {
    && Inv(s) && Inv(s')
    && match e
       case Map(r, page, x, ok) => r in s.m.roots && ValidPage(page) && MmapDone(s, s', r, page, x, ok)
       case Create(g) => Created(s, s', g)
       case Switch(r) => r in s.m.roots && s' == s.(cur := r)
       case Grab(x) => s.pmm != [] && x == s.pmm[0] && s' == s.(pmm := s.pmm[1..])
  }

  ghost predicate IsRun(ss: seq<State>, es: seq<Event>) {
    && |ss| == |es| + 1 && Inv(ss[0])
    && forall i :: 0 <= i < |es| ==> Transition(ss[i], ss[i + 1], es[i])
  }

  lemma RunPrefix(ss: seq<State>, es: seq<Event>)
    requires IsRun(ss, es) && |es| > 0
    ensures IsRun(ss[..|es|], es[..|es| - 1])
    ensures Transition(ss[|es| - 1], ss[|es|], es[|es| - 1])
  {
    forall i | 0 <= i < |es| - 1
      ensures Transition(ss[..|es|][i], ss[..|es|][i + 1], es[..|es| - 1][i])
    {
      assert Transition(ss[i], ss[i + 1], es[i]);
    }
  }

  lemma RunExtend(ss: seq<State>, es: seq<Event>, s': State, e: Event)
    requires IsRun(ss, es) && Transition(ss[|es|], s', e)
    ensures IsRun(ss + [s'], es + [e])
  {
    hide Transition, Inv;
    var ts, fs := ss + [s'], es + [e];
    forall i | 0 <= i < |fs|
      ensures Transition(ts[i], ts[i + 1], fs[i])
    {
      if i < |es| {
        assert Transition(ss[i], ss[i + 1], es[i]);
      }
    }
  }

  // ------------------------------------------------------------ the flat map

  /** The simple form of all address spaces: one page-to-frame map for the
      kernel half, shared by construction, and one for the lower halves. */
  datatype Flat = Flat(kernel: map<Page, Frame>, user: map<(Frame, Page), Frame>)

  function Lookup(fl: Flat, r: Frame, p: Page): Option<Frame>
    requires |p| == 4
  {
    if p[0] == KERNEL_SLOT then (if p in fl.kernel then Some(fl.kernel[p]) else None)
    else (if (r, p) in fl.user then Some(fl.user[(r, p)]) else None)
  }

  ghost predicate Refines(m: Forest, fl: Flat) {
    && WellFormed(m)
    && (forall k :: k in fl.user ==> k.0 in m.roots)
    && forall r, p :: r in m.roots && ValidPage(p) ==> Walk(m, r, p) == Lookup(fl, r, p)
  }

  /** The window mappings that one event adds. */
  ghost function Grown(s: State, s': State): map<Page, Frame>
    requires Grows(s, s')
  {
    Window(s.len, s.pmm[..(s'.len - s.len) / 0x1000])
  }

  ghost predicate Grows(s: State, s': State) {
    s.len <= s'.len && (s'.len - s.len) / 0x1000 <= |s.pmm|
  }

  ghost function FlatStep(fl: Flat, s: State, s': State, e: Event): Flat {
    match e
    case Map(r, page, x, ok) =>
      if !ok || !Grows(s, s') || |page| != 4 then fl
      else if page[0] == KERNEL_SLOT then fl.(kernel := (fl.kernel + Grown(s, s'))[page := x])
      else Flat(fl.kernel + Grown(s, s'), fl.user[(r, page) := x])
    case Create(g) => fl.(kernel := fl.kernel[WindowPage(s'.len) := g])
    case Switch(_) => fl
    case Grab(_) => fl
  }

  ghost function FlatRun(fl: Flat, ss: seq<State>, es: seq<Event>): Flat
    requires |ss| == |es| + 1
  {
    if es == [] then fl
    else FlatStep(FlatRun(fl, ss[..|es|], es[..|es| - 1]), ss[|es| - 1], ss[|es|], es[|es| - 1])
  }

  lemma {:induction false} WindowIsKernel(len: nat, frames: seq<Frame>, p: Page)
    requires WINDOW_BASE + len + |frames| * 0x1000 < ADDRESS_SPACE && p in Window(len, frames)
    ensures ValidPage(p) && p[0] == KERNEL_SLOT
  {
    WindowKernel(len + |frames| * 0x1000);
    if p != WindowPage(len + |frames| * 0x1000) {
      WindowIsKernel(len, frames[..|frames| - 1], p);
    }
  }

  lemma MapGrowth(s: State, s': State, e: Event)
    requires Transition(s, s', e) && e.Map?
    ensures Room(s, Need(s.m, e.r, e.page))
    ensures Grows(s, s') && (s'.len - s.len) / 0x1000 == Need(s.m, e.r, e.page)
    ensures WINDOW_BASE + s.len + Need(s.m, e.r, e.page) * 0x1000 < ADDRESS_SPACE
  {
    hide WellFormed, FreshFrames, LeafReady, Need, Mapped, Window, WindowTables, SameDirectories, Grew, Closed, Dangling, Keeps;
  }

  lemma MapRefines(s: State, s': State, e: Event, fl: Flat)
    requires Transition(s, s', e) && e.Map? && Refines(s.m, fl) && e.ok
    ensures Refines(s'.m, FlatStep(fl, s, s', e))
  {
    hide Walk, Linked, RootsAgree, Shaped, FreshFrames, Need, Dangling, Descend, SameDirectories, WindowTables, Window, Grew, Closed, Room, Keeps;
    MapGrowth(s, s', e);
    var win := Grown(s, s');
    assert Mapped(s.m, s'.m, e.r, e.page, e.x, win);
    forall r, p | r in s'.m.roots && ValidPage(p)
      ensures Walk(s'.m, r, p) == Lookup(FlatStep(fl, s, s', e), r, p)
    {
      if p in win {
        WindowIsKernel(s.len, s.pmm[..(s'.len - s.len) / 0x1000], p);
      }
    }
  }

  lemma CreateRefines(s: State, s': State, e: Event, fl: Flat)
    requires Transition(s, s', e) && e.Create? && Refines(s.m, fl)
    ensures Refines(s'.m, FlatStep(fl, s, s', e))
  {
    hide Walk, Shaped, Linked, Descend, FreshFrames, SameDirectories, Closed, WindowPage;
    FreshHead(s);
    WindowKernel(s'.len);
    forall r, p | r in s'.m.roots && ValidPage(p)
      ensures Walk(s'.m, r, p) == Lookup(FlatStep(fl, s, s', e), r, p)
    {
    }
  }

  /** One event is one update of the flat map. */
  lemma StepRefines(s: State, s': State, e: Event, fl: Flat)
    requires Transition(s, s', e) && Refines(s.m, fl)
    ensures Refines(s'.m, FlatStep(fl, s, s', e))
  {
    hide Walk, WellFormed, FreshFrames, Need, Dangling, Descend, SameDirectories, WindowTables, Refines, Mapped, Window, Grew, Closed, Room, Keeps;
    match e
    case Map(r, page, x, ok) =>
      if ok {
        MapRefines(s, s', e, fl);
      }
    case Create(g) => CreateRefines(s, s', e, fl);
    case Switch(r) =>
    case Grab(_) =>
  }

  /** Over every run the radix-tree forest behaves as the flat map. */
  lemma {:induction false} RunRefines(ss: seq<State>, es: seq<Event>, fl: Flat)
    requires IsRun(ss, es) && Refines(ss[0].m, fl)
    ensures Refines(ss[|es|].m, FlatRun(fl, ss, es))
    decreases |es|
  {
    hide Refines, FlatStep, Inv, Transition;
    if |es| > 0 {
      RunPrefix(ss, es);
      RunRefines(ss[..|es|], es[..|es| - 1], fl);
      StepRefines(ss[|es| - 1], ss[|es|], es[|es| - 1], FlatRun(fl, ss[..|es|], es[..|es| - 1]));
    }
  }

  ghost function AllPages(): (ps: set<Page>)
    ensures forall p :: p in ps <==> ValidPage(p)
  {
    var ps := set a, b, c, d | 0 <= a < 512 && 0 <= b < 512 && 0 <= c < 512 && 0 <= d < 512 :: [a, b, c, d];
    assert forall p: Page :: ValidPage(p) ==> p == [p[0], p[1], p[2], p[3]];
    ps
  }

  /** The flat map that a forest amounts to, seen from one of its roots. */
  ghost function FlatOf(m: Forest, r: Frame): Flat
    requires WellFormed(m) && r in m.roots
  {
    Flat(map p | p in AllPages() && p[0] == KERNEL_SLOT && Walk(m, r, p).Some? :: Walk(m, r, p).value,
         map k | k in Keys(m) && Walk(m, k.0, k.1).Some? :: Walk(m, k.0, k.1).value)
  }

  ghost function Keys(m: Forest): (ks: set<(Frame, Page)>)
    ensures forall k :: k in ks <==> k.0 in m.roots && ValidPage(k.1) && k.1[0] != KERNEL_SLOT
  {
    set r, p | r in m.roots && p in AllPages() && p[0] != KERNEL_SLOT :: (r, p)
  }

  lemma FlatOfRefines(m: Forest, r: Frame)
    requires WellFormed(m) && r in m.roots
    ensures Refines(m, FlatOf(m, r))
  {
    hide Walk, Linked, Shaped;
    forall s, p | s in m.roots && ValidPage(p)
      ensures Walk(m, s, p) == Lookup(FlatOf(m, r), s, p)
    {
      if p[0] == KERNEL_SLOT {
        KernelHalfShared(m, r, s, p);
      }
    }
  }

  /** So every run, from whatever state it starts, is a run of the flat map. */
  lemma RunIsFlat(ss: seq<State>, es: seq<Event>)
    requires IsRun(ss, es)
    ensures Refines(ss[|es|].m, FlatRun(FlatOf(ss[0].m, ss[0].cur), ss, es))
  {
    hide Refines, FlatRun, FlatOf, Transition;
    FlatOfRefines(ss[0].m, ss[0].cur);
    RunRefines(ss, es, FlatOf(ss[0].m, ss[0].cur));
  }

  /** In every state of every run all spaces agree on the kernel half. */
  lemma RunSharesKernel(ss: seq<State>, es: seq<Event>, i: nat, r: Frame, q: Frame, p: Page)
    requires IsRun(ss, es) && i <= |es|
    requires r in ss[i].m.roots && q in ss[i].m.roots && ValidPage(p) && p[0] == KERNEL_SLOT
    ensures Shaped(ss[i].m) && r in ss[i].m.vaddrOf && q in ss[i].m.vaddrOf
    ensures Walk(ss[i].m, r, p) == Walk(ss[i].m, q, p)
  {
    if i > 0 {
      assert Transition(ss[i - 1], ss[i], es[i - 1]);
    }
    KernelHalfShared(ss[i].m, r, q, p);
  }

  // --------------------------------------------------------------- isolation

  lemma StepIsolates(s: State, s': State, e: Event, r: Frame, p: Page)
    requires Transition(s, s', e) && r in s.m.roots && ValidPage(p) && p[0] != KERNEL_SLOT
    requires e.Map? ==> e.r != r
    ensures r in s'.m.roots
    ensures Walk(s'.m, r, p) == Walk(s.m, r, p)
  {
    hide Walk, Shaped, Linked, Descend, SameDirectories, Window, WindowTables, WindowPage, Need, Dangling, Grew, Closed, Room, FreshFrames, Keeps;
    match e
    case Map(_, page, x, ok) =>
      MapGrowth(s, s', e);
      var n := Need(s.m, e.r, e.page);
      if ok {
        var win := Window(s.len, s.pmm[..n]);
        assert Mapped(s.m, s'.m, e.r, e.page, x, win);
        if p in win {
          WindowIsKernel(s.len, s.pmm[..n], p);
        }
      }
    case Create(g) =>
      FreshHead(s);
      WindowKernel(s'.len);
    case Switch(_) =>
    case Grab(_) =>
  }

  /** A run that maps nothing in space r leaves the whole lower half of r as
      it was, whatever happens in other spaces or in the kernel half. */
  lemma {:induction false} RunIsolates(ss: seq<State>, es: seq<Event>, r: Frame, p: Page)
    requires IsRun(ss, es) && r in ss[0].m.roots && ValidPage(p) && p[0] != KERNEL_SLOT
    requires forall i :: 0 <= i < |es| && es[i].Map? ==> es[i].r != r
    ensures Inv(ss[|es|]) && r in ss[|es|].m.roots
    ensures Walk(ss[|es|].m, r, p) == Walk(ss[0].m, r, p)
    decreases |es|
  {
    hide Walk, Shaped, Linked, FreshFrames, Created, MmapDone;
    if |es| > 0 {
      RunPrefix(ss, es);
      RunIsolates(ss[..|es|], es[..|es| - 1], r, p);
      StepIsolates(ss[|es| - 1], ss[|es|], es[|es| - 1], r, p);
    }
  }

  // ------------------------------------------------- tables reach themselves

  /** Every known table is mapped, in every space, at the address by which the
      kernel reaches it: dereferencing a table pointer is sound in any space. */
  ghost predicate SelfMapped(m: Forest)
    requires WellFormed(m)
  {
    forall f, r :: f in m.vaddrOf && r in m.roots ==> SelfMappedIn(m, f, r)
  }

  ghost predicate SelfMappedIn(m: Forest, f: Frame, r: Frame)
    requires WellFormed(m) && f in m.vaddrOf && r in m.roots
  {
    var p := PageOf(m.vaddrOf[f]);
    Canonical(m.vaddrOf[f]) && p[0] == KERNEL_SLOT && Walk(m, r, p) == Some(f)
  }

  /** The event maps no page that holds a table. */
  ghost predicate SparesTables(s': State, e: Event) {
    e.Map? ==> forall f :: f in s'.m.vaddrOf ==> PageOf(s'.m.vaddrOf[f]) != e.page
  }

  lemma {:induction false} WindowOf(len: nat, frames: seq<Frame>, v: Vaddr)
    requires WINDOW_BASE + len + |frames| * 0x1000 < ADDRESS_SPACE && len % 0x1000 == 0
    requires Canonical(v) && v < WINDOW_BASE + len + 0x1000
    ensures PageOf(v) !in Window(len, frames)
  {
    hide Index, Canonical, PageOf;
    if frames != [] {
      var len' := len + |frames| * 0x1000;
      WindowOf(len, frames[..|frames| - 1], v);
      WindowKernel(len');
      LaterPage(v, len, len');
      SamePage(v, WINDOW_BASE + len');
    }
  }

  lemma LaterPage(v: Vaddr, len: nat, len': nat)
    requires v < WINDOW_BASE + len + 0x1000 && len % 0x1000 == 0 && len + 0x1000 <= len'
    ensures v / 0x1000 != (WINDOW_BASE + len') / 0x1000
  {
  }

  lemma {:induction false} WindowTablesMapped(len: nat, frames: seq<Frame>, f: Frame)
    requires WINDOW_BASE + len + |frames| * 0x1000 < ADDRESS_SPACE && len % 0x1000 == 0
    requires forall i, j :: 0 <= i < j < |frames| ==> frames[i] != frames[j]
    requires f in WindowTables(len, frames)
    ensures var v := WindowTables(len, frames)[f];
      && Canonical(v) && WINDOW_BASE + len < v <= WINDOW_BASE + len + |frames| * 0x1000
      && PageOf(v) in Window(len, frames) && Window(len, frames)[PageOf(v)] == f
  {
    var n := |frames|;
    WindowKernel(len + n * 0x1000);
    if f != frames[n - 1] {
      WindowTablesMapped(len, frames[..n - 1], f);
      var v := WindowTables(len, frames[..n - 1])[f];
      SamePage(v, WINDOW_BASE + len + n * 0x1000);
    }
  }

  lemma MapSelfMapped(s: State, s': State, e: Event, f: Frame, r: Frame)
    requires Transition(s, s', e) && e.Map? && e.ok && SelfMapped(s.m) && SparesTables(s', e)
    requires f in s'.m.vaddrOf && r in s'.m.roots
    ensures SelfMappedIn(s'.m, f, r)
  {
    hide Walk, Shaped, Linked, Need, Dangling, Descend, SameDirectories, Unreferenced, WindowTables, Window, SelfMappedIn, Index, Grew, Closed, Room;
    MapGrowth(s, s', e);
    var n := Need(s.m, e.r, e.page);
    var frames := s.pmm[..n];
    var v := s'.m.vaddrOf[f];
    assert Mapped(s.m, s'.m, e.r, e.page, e.x, Window(s.len, frames));
    if f in WindowTables(s.len, frames) {
      WindowTablesMapped(s.len, frames, f);
      WindowIsKernel(s.len, frames, PageOf(v));
      SelfMappedIntro(s'.m, f, r);
    } else {
      assert f in s.m.vaddrOf && v == s.m.vaddrOf[f];
      assert SelfMappedIn(s.m, f, r);
      SelfMappedElim(s.m, f, r);
      WindowOf(s.len, frames, v);
      SelfMappedIntro(s'.m, f, r);
    }
  }

  lemma SelfMappedElim(m: Forest, f: Frame, r: Frame)
    requires WellFormed(m) && f in m.vaddrOf && r in m.roots && SelfMappedIn(m, f, r)
    ensures var p := PageOf(m.vaddrOf[f]);
      Canonical(m.vaddrOf[f]) && p[0] == KERNEL_SLOT && Walk(m, r, p) == Some(f)
  {
  }

  lemma SelfMappedIntro(m: Forest, f: Frame, r: Frame)
    requires WellFormed(m) && f in m.vaddrOf && r in m.roots
    requires var p := PageOf(m.vaddrOf[f]);
      Canonical(m.vaddrOf[f]) && p[0] == KERNEL_SLOT && Walk(m, r, p) == Some(f)
    ensures SelfMappedIn(m, f, r)
  {
  }

  lemma CreateSelfMapped(s: State, s': State, g: Frame, f: Frame, r: Frame)
    requires Created(s, s', g) && SelfMapped(s.m)
    requires f in s'.m.vaddrOf && r in s'.m.roots
    ensures SelfMappedIn(s'.m, f, r)
  {
    hide Walk, Shaped, Linked, Descend, Unreferenced, SelfMappedIn, Index, SameDirectories, Closed;
    FreshHead(s);
    var v := s'.m.vaddrOf[f];
    WindowKernel(s'.len);
    if f == g {
      SelfMappedIntro(s'.m, f, r);
    } else {
      var q := if r == g then s.cur else r;
      assert SelfMappedIn(s.m, f, q);
      SelfMappedElim(s.m, f, q);
      SamePage(v, WINDOW_BASE + s'.len);
      SelfMappedIntro(s'.m, f, r);
    }
  }

  lemma StepSelfMapped(s: State, s': State, e: Event)
    requires Transition(s, s', e) && SelfMapped(s.m) && SparesTables(s', e)
    ensures SelfMapped(s'.m)
  {
    hide SelfMappedIn, Need, Dangling, Mapped, FreshFrames, Linked, Shaped, SameDirectories, Walk, Window, WindowTables, Grew, Closed, Room;
    match e
    case Map(r, page, x, ok) =>
      if ok {
        forall f, q | f in s'.m.vaddrOf && q in s'.m.roots ensures SelfMappedIn(s'.m, f, q) {
          MapSelfMapped(s, s', e, f, q);
        }
      }
    case Create(g) =>
      forall f, q | f in s'.m.vaddrOf && q in s'.m.roots ensures SelfMappedIn(s'.m, f, q) {
        CreateSelfMapped(s, s', g, f, q);
      }
    case Switch(_) =>
      forall f, q | f in s'.m.vaddrOf && q in s'.m.roots ensures SelfMappedIn(s'.m, f, q) {
        assert SelfMappedIn(s.m, f, q);
      }
    case Grab(_) =>
  }

  /** Over every run that maps nothing on top of a table, every table stays
      reachable at its recorded address in every space. */
  lemma {:induction false} RunSelfMapped(ss: seq<State>, es: seq<Event>)
    requires IsRun(ss, es) && SelfMapped(ss[0].m)
    requires forall i :: 0 <= i < |es| ==> SparesTables(ss[i + 1], es[i])
    ensures Inv(ss[|es|]) && SelfMapped(ss[|es|].m)
    decreases |es|
  {
    hide SelfMapped, WellFormed, FreshFrames, Created, MmapDone, SparesTables;
    if |es| > 0 {
      RunPrefix(ss, es);
      var ss', es' := ss[..|es|], es[..|es| - 1];
      forall i | 0 <= i < |es'|
        ensures SparesTables(ss'[i + 1], es'[i])
      {
        assert SparesTables(ss[i + 1], es[i]);
      }
      RunSelfMapped(ss', es');
      StepSelfMapped(ss[|es| - 1], ss[|es|], es[|es| - 1]);
    }
  }

  // ----------------------------------------------------------------- failures

  lemma ClosedNeverDangles(m: Forest, r: Frame, p: Page)
    requires WellFormed(m) && Closed(m) && r in m.roots && ValidPage(p)
    ensures !Dangling(m, r, p)
  {
    hide Linked;
    forall k | 0 <= k < 3
      ensures !DanglingAt(m, r, p, k)
    {
      if Descend(m, r, p, k).Some? {
        DescendPlace(m, r, p, k);
      }
    }
  }

  /** From a state in which every directory entry names a known table, as the
      boot state does, no `mmap` of any run fails. */
  lemma {:induction false} RunNeverFails(ss: seq<State>, es: seq<Event>)
    requires IsRun(ss, es) && Closed(ss[0].m)
    ensures Inv(ss[|es|]) && Closed(ss[|es|].m)
    ensures forall i :: 0 <= i < |es| && es[i].Map? ==> es[i].ok
    decreases |es|
  {
    hide Inv, Closed, Created, MmapDone;
    if |es| > 0 {
      RunPrefix(ss, es);
      RunNeverFails(ss[..|es|], es[..|es| - 1]);
      StepNeverFails(ss[|es| - 1], ss[|es|], es[|es| - 1]);
      forall i | 0 <= i < |es| && es[i].Map?
        ensures es[i].ok
      {
        if i < |es| - 1 {
          assert es[..|es| - 1][i] == es[i];
        }
      }
    }
  }

  lemma StepNeverFails(s: State, s': State, e: Event)
    requires Transition(s, s', e) && Closed(s.m)
    ensures Inv(s') && Closed(s'.m) && (e.Map? ==> e.ok)
  {
    hide WellFormed, Closed, FreshFrames, Mapped, Grew, Dangling, Window, WindowTables, SameDirectories, Walk, Descend, Room;
    if e.Map? {
      ClosedNeverDangles(s.m, e.r, e.page);
    }
  }

  // ----------------------------------------------------------------- capacity

  /** One event creates at most three tables, one window page each. */
  lemma StepCreates(s: State, s': State, e: Event)
    requires Transition(s, s', e)
    ensures exists n: nat :: n <= 3 && Room(s, n) && s'.len == s.len + n * 0x1000
  {
    hide Mapped, Window, WindowTables, SameDirectories, WellFormed, FreshFrames, Dangling, Walk, Grew, Closed, Descend;
    match e
    case Map(r, page, _, _) => assert Room(s, Need(s.m, r, page));
    case Create(_) => assert Room(s, 1);
    case Switch(_) => assert Room(s, 0);
    case Grab(_) => assert Room(s, 0);
  }

  /** The leaf table behind the one the boot code made for the window. */
  const NEXT_LEAF: Page := [511, 0, 2, 0]

  ghost predicate NoNextLeaf(s: State)
    requires Inv(s)
  {
    Descend(s.m, s.cur, NEXT_LEAF, 3) == None
  }

  ghost predicate FirstLeaf(s: State)
    requires Inv(s)
  {
    Descend(s.m, s.cur, WindowPage(0), 3).Some?
  }

  /** While the next leaf table is missing, the room left is what remains of
      the first: the window can grow to 0xff000 bytes and no further. */
  lemma RoomLeft(s: State, n: nat)
    requires Inv(s) && FirstLeaf(s) && NoNextLeaf(s) && s.len <= 0xff000 && n <= |s.pmm|
    ensures Room(s, n) <==> s.len + n * 0x1000 <= 0xff000
  {
    hide WellFormed, FreshFrames, Descend, WindowPage;
    forall i | 1 <= i <= n && s.len + i * 0x1000 <= 0xff000
      ensures LeafReady(s, s.len + i * 0x1000)
    {
      FirstLeafPages(s, s.len + i * 0x1000);
    }
    if s.len + n * 0x1000 > 0xff000 {
      var i := (0x10_0000 - s.len) / 0x1000;
      assert s.len + i * 0x1000 == 0x10_0000 && 1 <= i <= n;
      NextLeafPages(s, 0x10_0000);
    }
  }

  lemma FirstLeafPages(s: State, len: nat)
    requires Inv(s) && FirstLeaf(s) && len < 0x10_0000
    ensures LeafReady(s, len)
  {
    hide WindowPage;
    WindowPageOf(len);
    WindowPageOf(0);
    DescendPrefix(s.m, s.cur, WindowPage(len), WindowPage(0), 3);
  }

  lemma NextLeafPages(s: State, len: nat)
    requires Inv(s) && NoNextLeaf(s) && 0x10_0000 <= len < 0x30_0000
    ensures !LeafReady(s, len)
  {
    hide WindowPage;
    WindowPageOf(len);
    assert NEXT_LEAF[..3] == [511, 0, 2];
    DescendPrefix(s.m, s.cur, WindowPage(len), NEXT_LEAF, 3);
  }

  /** What one more `alloc_pg_table` does once the window is full, while the next
      leaf table is missing: 512 nested calls of `mmap`, each finding the tables
      as they were, each failing or asking for a table of its own. */
  lemma FullWindowRunsAway(s: State, i: nat)
    requires Inv(s) && NoNextLeaf(s) && s.len == 0xff000 && 1 <= i <= 512 && i <= |s.pmm|
    ensures !Room(s, 1)
    ensures var t := Nested(s, i);
      && Inv(t) && t.m == s.m
      && (Dangling(t.m, t.cur, WindowPage(t.len))
          || exists k :: 0 <= k < 3 && MissingAt(t.m, t.cur, WindowPage(t.len), k))
      && (Closed(t.m) ==> !Dangling(t.m, t.cur, WindowPage(t.len)))
  {
    hide Linked, RootsAgree, Shaped, FreshFrames, Descend, WindowPage, Dangling, MissingAt, Closed;
    NextLeafPages(s, s.len + i * 0x1000);
    NextLeafPages(s, s.len + 1 * 0x1000);
    NestedAsks(s, i);
  }

  /** The nested call without its leaf table fails or asks for a table. */
  lemma NestedAsks(s: State, i: nat)
    requires Inv(s) && 1 <= i <= |s.pmm| && !LeafReady(s, s.len + i * 0x1000)
    ensures var t := Nested(s, i);
      && Inv(t) && t.m == s.m
      && (Dangling(t.m, t.cur, WindowPage(t.len))
          || exists k :: 0 <= k < 3 && MissingAt(t.m, t.cur, WindowPage(t.len), k))
      && (Closed(t.m) ==> !Dangling(t.m, t.cur, WindowPage(t.len)))
  {
    hide Linked, RootsAgree, Shaped, FreshFrames, Descend, WindowPage, Dangling, MissingAt, Closed;
    NestedNeeds(s, i);
    if Closed(s.m) {
      ClosedNeverDangles(s.m, s.cur, WindowPage(s.len + i * 0x1000));
    }
  }

  // ------------------------------------------------- no leaf table further on

  /** In the kernel half only the two leaf tables of the boot code are there. */
  ghost predicate BootLeaf(q: Page)
    requires ValidPage(q)
  {
    q[..3] == [511, 0, 0] || q[..3] == [511, 0, 1]
  }

  ghost predicate NoLaterLeaf(s: State)
    requires Inv(s)
  {
    forall q :: ValidPage(q) && q[0] == KERNEL_SLOT && Descend(s.m, s.cur, q, 3).Some? ==> BootLeaf(q)
  }

  /** The window leaves the boot leaf tables at 1 MiB for good. */
  lemma WindowBeyond(len: nat)
    requires WINDOW_BASE + len < ADDRESS_SPACE && BootLeaf(WindowPage(len))
    ensures len < 0x10_0000
  {
    hide Index;
    var p := WindowPage(len);
    var x := p[..3][2] * 0x20_0000 + p[3] * 0x1000;
    assert p[0] == p[..3][0] && p[1] == p[..3][1] && p[2] == p[..3][2];
    BootAddress(p[2], p[3]);
    WindowKernel(len);
    assert p == PageOf(KERNEL_TEXT_START + x);
    SamePage(WINDOW_BASE + len, KERNEL_TEXT_START + x);
  }

  lemma BootAddress(b: nat, c: nat)
    requires b < 2 && c < 512
    ensures var x := b * 0x20_0000 + c * 0x1000;
      PageOf(KERNEL_TEXT_START + x) == [511, 0, b, c] && Canonical(KERNEL_TEXT_START + x)
  {
    hide Index;
    KernelIndices(b * 0x20_0000 + c * 0x1000);
  }

  lemma LaterAbsent(s: State, len: nat)
    requires Inv(s) && NoLaterLeaf(s) && 0x10_0000 <= len && WINDOW_BASE + len < ADDRESS_SPACE
    ensures !LeafReady(s, len)
  {
    hide Linked, Shaped, FreshFrames, Descend, WindowPage, BootLeaf;
    WindowKernel(len);
    if LeafReady(s, len) {
      WindowBeyond(len);
    }
  }

  /** So the leaf tables ahead of the window are there up to 1 MiB and no
      further. */
  lemma FirstLeafContiguous(s: State)
    requires Inv(s) && FirstLeaf(s) && NoLaterLeaf(s)
    ensures Contiguous(s) && NoNextLeaf(s)
  {
    hide Linked, RootsAgree, Shaped, FreshFrames, Descend, WindowPage, LeafReady, FirstLeaf;
    forall i: nat, j: nat | 1 <= i <= j <= |s.pmm| && LeafReady(s, s.len + j * 0x1000)
      ensures LeafReady(s, s.len + i * 0x1000)
    {
      if s.len + j * 0x1000 >= 0x10_0000 {
        LaterAbsent(s, s.len + j * 0x1000);
      }
      FirstLeafPages(s, s.len + i * 0x1000);
    }
    assert !BootLeaf(NEXT_LEAF) by {
      assert NEXT_LEAF[..3] == [511, 0, 2];
      assert [511, 0, 2][2] != [511, 0, 0][2] && [511, 0, 2][2] != [511, 0, 1][2];
    }
  }

  /** With a full window and no leaf table further on, the nested calls of one
      more `alloc_pg_table` go on for as long as there are frames: each of them
      finds the tables as they were and asks for a table. */
  lemma FullWindowExhausts(s: State, i: nat)
    requires Inv(s) && NoLaterLeaf(s) && Closed(s.m) && s.len >= 0xff000 && 1 <= i <= |s.pmm|
    ensures !Room(s, 1)
    ensures var t := Nested(s, i);
      Inv(t) && t.m == s.m && exists k :: 0 <= k < 3 && MissingAt(t.m, t.cur, WindowPage(t.len), k)
  {
    hide Linked, RootsAgree, Shaped, FreshFrames, Descend, WindowPage, Dangling, MissingAt, Closed, NoLaterLeaf;
    LaterAbsent(s, s.len + i * 0x1000);
    LaterAbsent(s, s.len + 1 * 0x1000);
    NestedAsks(s, i);
  }

  /** The event maps nothing in the kernel half beyond the boot leaf tables. */
  ghost predicate SparesLaterLeaves(e: Event) {
    e.Map? && ValidPage(e.page) && e.page[0] == KERNEL_SLOT ==> BootLeaf(e.page)
  }

  lemma StepLaterLeaves(s: State, s': State, e: Event)
    requires Transition(s, s', e) && SparesLaterLeaves(e) && NoLaterLeaf(s)
    ensures NoLaterLeaf(s')
  {
    hide Linked, Shaped, FreshFrames, Mapped, Window, WindowTables, WindowPage, SameDirectories, Dangling, Walk, Grew, Closed, Descend, Room, Keeps, Need, BootLeaf;
    forall q | ValidPage(q) && q[0] == KERNEL_SLOT && Descend(s'.m, s'.cur, q, 3).Some?
      ensures BootLeaf(q)
    {
      match e
      case Map(r, page, _, _) =>
        GrewFact(s.m, s'.m, r, page, s.cur, q, 3);
        if Descend(s.m, s.cur, q, 3) == None {
          SameBootLeaf(q, page);
        }
      case Create(g) =>
        DescendSame(s.m, s'.m, s.cur, q, 3);
      case Switch(r) =>
        SharedDescend(s.m, s.cur, r, q, 3);
      case Grab(_) =>
    }
  }

  lemma SameBootLeaf(q: Page, page: Page)
    requires ValidPage(q) && ValidPage(page) && q[..3] == page[..3]
    ensures q[0] == page[0] && (BootLeaf(page) ==> BootLeaf(q))
  {
    assert q[0] == q[..3][0] && page[0] == page[..3][0];
  }

  /** The event maps nothing under the next leaf table. */
  ghost predicate SparesNextLeaf(e: Event) {
    e.Map? && |e.page| == 4 ==> e.page[..3] != NEXT_LEAF[..3]
  }

  lemma StepLeaves(s: State, s': State, e: Event)
    requires Transition(s, s', e) && SparesNextLeaf(e) && FirstLeaf(s) && NoNextLeaf(s)
    ensures FirstLeaf(s') && NoNextLeaf(s')
  {
    hide WellFormed, FreshFrames, Mapped, Window, WindowTables, WindowPage, SameDirectories, Dangling, Walk, Grew, Closed, Descend, Room, Keeps, Need;
    WindowKernel(0);
    match e
    case Map(r, page, _, _) =>
      MapLeaves(s, s', r, page);
    case Create(g) =>
      DescendSame(s.m, s'.m, s.cur, NEXT_LEAF, 3);
      DescendSame(s.m, s'.m, s.cur, WindowPage(0), 3);
    case Switch(r) =>
      SharedDescend(s.m, s.cur, r, NEXT_LEAF, 3);
      SharedDescend(s.m, s.cur, r, WindowPage(0), 3);
    case Grab(_) =>
  }

  lemma MapLeaves(s: State, s': State, r: Frame, page: Page)
    requires Inv(s) && Inv(s') && FirstLeaf(s) && NoNextLeaf(s) && s'.cur == s.cur
    requires ValidPage(page) && page[..3] != NEXT_LEAF[..3] && Grew(s.m, s'.m, r, page)
    ensures FirstLeaf(s') && NoNextLeaf(s')
  {
    hide Linked, RootsAgree, Shaped, FreshFrames, WindowPage, Grew, Descend;
    GrewFact(s.m, s'.m, r, page, s.cur, NEXT_LEAF, 3);
    GrewFact(s.m, s'.m, r, page, s.cur, WindowPage(0), 3);
  }

  /** From the boot state, a run that maps nothing under the next leaf table
      creates at most 249 tables, and in each of its states there is room for n
      tables exactly when these fit that number. */
  lemma {:induction false} RunCapacity(ss: seq<State>, es: seq<Event>, n: nat)
    requires IsRun(ss, es) && ss[0].len == WINDOW_INITIAL_LENGTH && FirstLeaf(ss[0]) && NoNextLeaf(ss[0])
    requires forall i :: 0 <= i < |es| ==> SparesNextLeaf(es[i])
    ensures Inv(ss[|es|]) && FirstLeaf(ss[|es|]) && NoNextLeaf(ss[|es|])
    ensures WINDOW_INITIAL_LENGTH <= ss[|es|].len <= WINDOW_INITIAL_LENGTH + 249 * 0x1000
    ensures n <= |ss[|es|].pmm| ==>
      (Room(ss[|es|], n) <==> (ss[|es|].len - WINDOW_INITIAL_LENGTH) / 0x1000 + n <= 249)
    decreases |es|
  {
    hide WellFormed, FreshFrames, Created, MmapDone, FirstLeaf, NoNextLeaf, SparesNextLeaf, Room;
    if |es| > 0 {
      RunPrefix(ss, es);
      var ss', es' := ss[..|es|], es[..|es| - 1];
      forall i | 0 <= i < |es'|
        ensures SparesNextLeaf(es'[i])
      {
        assert es'[i] == es[i];
      }
      RunCapacity(ss', es', 0);
      var s, s' := ss[|es| - 1], ss[|es|];
      StepLeaves(s, s', es[|es| - 1]);
      StepCreates(s, s', es[|es| - 1]);
      var k: nat :| k <= 3 && Room(s, k) && s'.len == s.len + k * 0x1000;
      RoomFrames(s, k);
      RoomLeft(s, k);
    }
    if n <= |ss[|es|].pmm| {
      RoomLeft(ss[|es|], n);
    }
  }
}
