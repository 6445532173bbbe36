/** What loading segments does to memory: the region list, the pages mapped for
    each segment and the bytes copied into them. */
module SegmentMemory {
  import opened Common
  import opened RegionSpec

  type Frame = nat

  /** A byte of physical memory, and which program header's copy wrote it; None
      for what the frame held before. */
  datatype Cell = Cell(value: Byte, writer: Option<nat>)

  /** An address space while a program is loaded: its region list, its pages by
      page number, physical memory, and the frames still to be handed out. */
  datatype Space = Space(regions: seq<Extent>, pages: map<nat, Frame>, ram: map<Frame, seq<Cell>>, free: seq<Frame>)

  /** Pages have frames of their own, and free frames are in use nowhere. */
  ghost predicate Sound(sp: Space) {
    && (forall f :: f in sp.ram ==> |sp.ram[f]| == 0x1000)
    && (forall p :: p in sp.pages ==> sp.pages[p] in sp.ram)
    && (forall p, q :: p in sp.pages && q in sp.pages && sp.pages[p] == sp.pages[q] ==> p == q)
    && (forall i :: 0 <= i < |sp.free| ==> sp.free[i] in sp.ram && sp.free[i] !in sp.pages.Values)
    && (forall i, j :: 0 <= i < j < |sp.free| ==> sp.free[i] != sp.free[j])
  }

  predicate Mapped(sp: Space, a: nat) {
    a / 0x1000 in sp.pages
  }

  /** What address a holds. */
  ghost function At(sp: Space, a: nat): Cell
    requires Sound(sp) && Mapped(sp, a)
  {
    sp.ram[sp.pages[a / 0x1000]][a % 0x1000]
  }

  // --------------------------------------------------------- the page loop

  /** New frames for n pages from page number p on. */
  function MapPages(sp: Space, p: nat, n: nat): (sp': Space)
    requires n <= |sp.free|
    ensures sp'.free == sp.free[n..] && sp'.ram == sp.ram && sp'.regions == sp.regions
  {
    if n == 0 then sp
    else
      var sp1 := MapPages(sp, p, n - 1);
      sp1.(pages := sp1.pages[p + n - 1 := sp1.free[0]], free := sp1.free[1..])
  }

  lemma {:induction false} MapPagesAt(sp: Space, p: nat, n: nat, q: nat)
    requires n <= |sp.free|
    ensures var sp' := MapPages(sp, p, n);
      if p <= q < p + n then q in sp'.pages && sp'.pages[q] == sp.free[q - p]
      else (q in sp'.pages <==> q in sp.pages) && (q in sp.pages ==> sp'.pages[q] == sp.pages[q])
  {
    if n > 0 {
      MapPagesAt(sp, p, n - 1, q);
    }
  }

  lemma {:induction false} MapPagesSound(sp: Space, p: nat, n: nat)
    requires Sound(sp) && n <= |sp.free|
    ensures Sound(MapPages(sp, p, n))
  {
    if n > 0 {
      MapPagesSound(sp, p, n - 1);
      MapOneSound(MapPages(sp, p, n - 1), p + n - 1);
    }
  }

  lemma MapOneSound(sp: Space, p: nat)
    requires Sound(sp) && sp.free != []
    ensures Sound(sp.(pages := sp.pages[p := sp.free[0]], free := sp.free[1..]))
  {
    var pages := sp.pages[p := sp.free[0]];
    forall q, r | q in pages && r in pages && pages[q] == pages[r]
      ensures q == r
    {
      assert q != p && q in sp.pages ==> sp.pages[q] in sp.pages.Values;
      assert r != p && r in sp.pages ==> sp.pages[r] in sp.pages.Values;
    }
    forall f | f in pages.Values
      ensures f == sp.free[0] || f in sp.pages.Values
    {
    }
  }

  // --------------------------------------------------------------- the copy

  function Poke(sp: Space, a: nat, c: Cell): Space
    requires Mapped(sp, a) && sp.pages[a / 0x1000] in sp.ram && |sp.ram[sp.pages[a / 0x1000]]| == 0x1000
  {
    var f := sp.pages[a / 0x1000];
    sp.(ram := sp.ram[f := sp.ram[f][a % 0x1000 := c]])
  }

  lemma PokeAt(sp: Space, a: nat, c: Cell, b: nat)
    requires Sound(sp) && Mapped(sp, a)
    ensures Sound(Poke(sp, a, c)) && (Mapped(Poke(sp, a, c), b) <==> Mapped(sp, b))
    ensures Mapped(sp, b) ==> At(Poke(sp, a, c), b) == if b == a then c else At(sp, b)
    ensures forall i :: 0 <= i < |sp.free| ==> Poke(sp, a, c).ram[sp.free[i]] == sp.ram[sp.free[i]]
  {
    assert sp.pages[a / 0x1000] in sp.pages.Values;
    assert a / 0x1000 == b / 0x1000 && a % 0x1000 == b % 0x1000 ==> a == b;
  }

  /** Copies bytes to address a on behalf of program header i; None when an
      address is not mapped, where the processor faults. */
  ghost function Copy(sp: Space, a: nat, bytes: seq<Byte>, i: nat): (r: Option<Space>)
    requires Sound(sp)
    decreases |bytes|
  {
    if bytes == [] then Some(sp)
    else if !Mapped(sp, a) then None
    else
      PokeAt(sp, a, Cell(bytes[0], Some(i)), a);
      Copy(Poke(sp, a, Cell(bytes[0], Some(i))), a + 1, bytes[1..], i)
  }

  lemma {:induction false} CopyAt(sp: Space, a: nat, bytes: seq<Byte>, i: nat)
    requires Sound(sp)
    ensures Copy(sp, a, bytes, i).Some? <==> forall b :: a <= b < a + |bytes| ==> Mapped(sp, b)
    ensures Copy(sp, a, bytes, i).Some? ==>
      var sp' := Copy(sp, a, bytes, i).value;
      && Sound(sp') && sp'.pages == sp.pages && sp'.free == sp.free && sp'.regions == sp.regions
      && (forall b :: Mapped(sp, b) ==> At(sp', b) == Copied(sp, a, bytes, i, b))
      && (forall n :: 0 <= n < |sp.free| ==> sp'.ram[sp.free[n]] == sp.ram[sp.free[n]])
    decreases |bytes|
  {
    if bytes != [] && Mapped(sp, a) {
      var c := Cell(bytes[0], Some(i));
      var sp1 := Poke(sp, a, c);
      forall b
        ensures Sound(sp1) && (Mapped(sp1, b) <==> Mapped(sp, b))
        ensures Mapped(sp, b) ==> At(sp1, b) == if b == a then c else At(sp, b)
        ensures forall n :: 0 <= n < |sp.free| ==> sp1.ram[sp.free[n]] == sp.ram[sp.free[n]]
      {
        PokeAt(sp, a, c, b);
      }
      CopyAt(sp1, a + 1, bytes[1..], i);
    }
  }

  /** What address b holds after the copy. */
  ghost function Copied(sp: Space, a: nat, bytes: seq<Byte>, i: nat, b: nat): Cell
    requires Sound(sp) && Mapped(sp, b)
  {
    if a <= b < a + |bytes| then Cell(bytes[b - a], Some(i)) else At(sp, b)
  }

  // --------------------------------------------------------------- segments

  const PT_LOAD := 1

  /** The fields of a program header that are used. */
  datatype Phdr = Phdr(ptype: nat, offset: nat, vaddr: nat, filesz: nat, memsz: nat)

  /** The file part of every loadable segment lies inside the image. */
  ghost predicate InImage(file: seq<Byte>, hs: seq<Phdr>) {
    forall i :: 0 <= i < |hs| && hs[i].ptype == PT_LOAD ==> hs[i].offset + hs[i].filesz <= |file|
  }

  /** `vmm_alloc` aligns the start down and the length up, each by itself. */
  function Start(h: Phdr): nat { PageAlignDown(h.vaddr) }

  function Length(h: Phdr): nat { PageAlign(h.memsz) }

  /** Pages that the segment takes. */
  function Pages(h: Phdr): nat { if h.ptype == PT_LOAD then Length(h) / 0x1000 else 0 }

  /** Placed at `found`, the segment gets the page of address a. */
  ghost predicate Maps(h: Phdr, found: nat, a: nat) {
    found / 0x1000 <= a / 0x1000 < found / 0x1000 + Pages(h)
  }

  /** Address a lies in the file part of the segment. */
  ghost predicate Covers(h: Phdr, a: nat) {
    h.ptype == PT_LOAD && h.vaddr <= a < h.vaddr + h.filesz
  }

  /** What the file says address a holds. */
  ghost function Says(file: seq<Byte>, h: Phdr, a: nat): Byte
    requires Covers(h, a) && h.offset + h.filesz <= |file|
  {
    file[h.offset + (a - h.vaddr)]
  }

  datatype Outcome = Running(sp: Space) | Panic | Fault | NoFrames

  /** One turn of the loop of `load_elf`. */
  ghost function LoadSegment(sp: Space, file: seq<Byte>, h: Phdr, i: nat): (r: Outcome)
    requires Sound(sp) && sp.regions != [] && (h.ptype == PT_LOAD ==> h.offset + h.filesz <= |file|)
    ensures r.Running? ==> Sound(r.sp) && r.sp.regions != []
  {
    if h.ptype != PT_LOAD then Running(sp)
    else
      match Place(sp.regions, Start(h), Length(h))
      case None => Panic
      case Some((k, found)) =>
        if Length(h) / 0x1000 > |sp.free| then NoFrames
        else
          var sp1 := sp.(regions := Insert(sp.regions, k + 1, Extent(found, Length(h))));
          var sp2 := MapPages(sp1, found / 0x1000, Length(h) / 0x1000);
          MapPagesSound(sp1, found / 0x1000, Length(h) / 0x1000);
          CopyAt(sp2, h.vaddr, file[h.offset..h.offset + h.filesz], i);
          if found == 0 then Panic
          else
            match Copy(sp2, h.vaddr, file[h.offset..h.offset + h.filesz], i)
            case None => Fault
            case Some(sp3) => Running(sp3)
  }

  /** The first n program headers. */
  ghost function LoadAll(sp: Space, file: seq<Byte>, hs: seq<Phdr>, n: nat): (r: Outcome)
    requires Sound(sp) && sp.regions != [] && InImage(file, hs) && n <= |hs|
    ensures r.Running? ==> Sound(r.sp) && r.sp.regions != []
  {
    if n == 0 then Running(sp)
    else
      match LoadAll(sp, file, hs, n - 1)
      case Running(sp1) => LoadSegment(sp1, file, hs[n - 1], n - 1)
      case other => other
  }

  // -------------------------------------------------- where the segments go

  /** The region list after the first n segments; None when one was rejected. */
  ghost function RegionsAfter(es: seq<Extent>, hs: seq<Phdr>, n: nat): (r: Option<seq<Extent>>)
    requires es != [] && n <= |hs|
    ensures r.Some? ==> r.value != []
  {
    if n == 0 then Some(es)
    else
      match RegionsAfter(es, hs, n - 1)
      case None => None
      case Some(rs) =>
        if hs[n - 1].ptype != PT_LOAD then Some(rs)
        else
          match Place(rs, Start(hs[n - 1]), Length(hs[n - 1]))
          case None => None
          case Some((k, found)) => Some(Insert(rs, k + 1, Extent(found, Length(hs[n - 1]))))
  }

  /** Where a list lets the segment go; 0 if nowhere. */
  ghost function FoundIn(rs: Option<seq<Extent>>, h: Phdr): nat
    requires rs.Some? ==> rs.value != []
  {
    if rs.None? || Place(rs.value, Start(h), Length(h)).None? then 0
    else Place(rs.value, Start(h), Length(h)).value.1
  }

  /** Where `vmm_alloc` puts each of the segments. */
  ghost function Founds(es: seq<Extent>, hs: seq<Phdr>): (fs: seq<nat>)
    requires es != []
    ensures |fs| == |hs|
    ensures forall i :: 0 <= i < |hs| ==> fs[i] == FoundIn(RegionsAfter(es, hs, i), hs[i])
  {
    seq(|hs|, i requires 0 <= i < |hs| => FoundIn(RegionsAfter(es, hs, i), hs[i]))
  }

  /** None of the first n segments is rejected or put at address 0, which the
      loader takes for NULL. */
  ghost predicate Placeable(es: seq<Extent>, hs: seq<Phdr>, n: nat)
    requires es != [] && n <= |hs|
  {
    RegionsAfter(es, hs, n).Some? && forall i :: 0 <= i < n && hs[i].ptype == PT_LOAD ==> Founds(es, hs)[i] != 0
  }

  // ------------------------------------------------------ what memory holds

  /** Frames that the first n segments take. */
  ghost function Used(hs: seq<Phdr>, n: nat): nat
    requires n <= |hs|
  {
    if n == 0 then 0 else Used(hs, n - 1) + Pages(hs[n - 1])
  }

  /** One segment: when it is loaded, which pages are mapped then, and what they
      hold. */
  lemma SegmentEffect(sp: Space, file: seq<Byte>, h: Phdr, i: nat, found: nat)
    requires Sound(sp) && sp.regions != [] && h.ptype == PT_LOAD && h.offset + h.filesz <= |file|
    requires found == FoundIn(Some(sp.regions), h)
    ensures LoadSegment(sp, file, h, i).Running? <==>
      && Place(sp.regions, Start(h), Length(h)).Some? && found != 0 && Pages(h) <= |sp.free|
      && forall a :: Covers(h, a) ==> Maps(h, found, a) || Mapped(sp, a)
    ensures LoadSegment(sp, file, h, i).Running? ==>
      var sp' := LoadSegment(sp, file, h, i).sp;
      && sp'.free == sp.free[Pages(h)..]
      && (forall a :: Mapped(sp', a) <==> Maps(h, found, a) || Mapped(sp, a))
      && (forall a :: Mapped(sp', a) ==> At(sp', a) == Next(sp, file, h, found, i, a))
      && (forall n :: Pages(h) <= n < |sp.free| ==> sp'.ram[sp.free[n]] == sp.ram[sp.free[n]])
      && sp'.regions == Insert(sp.regions, Place(sp.regions, Start(h), Length(h)).value.0 + 1, Extent(found, Length(h)))
  {
    hide Copy, MapPages, Place, Insert, PageAlign, PageAlignDown, Sound, At, FreshCell, Maps;
    var r := Place(sp.regions, Start(h), Length(h));
    if r.Some? && Pages(h) <= |sp.free| {
      var sp1 := sp.(regions := Insert(sp.regions, r.value.0 + 1, Extent(found, Length(h))));
      var sp2 := MapPages(sp1, found / 0x1000, Pages(h));
      RegionsSound(sp, sp1.regions);
      MapPagesSound(sp1, found / 0x1000, Pages(h));
      var bytes := file[h.offset..h.offset + h.filesz];
      CopyAt(sp2, h.vaddr, bytes, i);
      forall a
        ensures Mapped(sp2, a) <==> Maps(h, found, a) || Mapped(sp, a)
        ensures Mapped(sp2, a) ==> At(sp2, a) == if Maps(h, found, a) then FreshCell(sp, h, found, a) else At(sp, a)
      {
        FreshPage(sp, sp1, h, found, a);
      }
      assert forall a: nat :: Covers(h, a) <==> h.vaddr <= a < h.vaddr + |bytes|;
      if Copy(sp2, h.vaddr, bytes, i).Some? {
        var sp3 := Copy(sp2, h.vaddr, bytes, i).value;
        forall a | Mapped(sp3, a)
          ensures At(sp3, a) == Next(sp, file, h, found, i, a)
        {
          assert At(sp3, a) == Copied(sp2, h.vaddr, bytes, i, a);
        }
      }
    }
  }

  /** The page map after one segment. */
  lemma SegmentPages(sp: Space, file: seq<Byte>, h: Phdr, i: nat, found: nat, q: nat)
    requires Sound(sp) && sp.regions != [] && h.ptype == PT_LOAD && h.offset + h.filesz <= |file|
    requires found == FoundIn(Some(sp.regions), h) && LoadSegment(sp, file, h, i).Running?
    ensures Pages(h) <= |sp.free|
    ensures var pages := LoadSegment(sp, file, h, i).sp.pages;
      if found / 0x1000 <= q < found / 0x1000 + Pages(h) then q in pages && pages[q] == sp.free[q - found / 0x1000]
      else (q in pages <==> q in sp.pages) && (q in sp.pages ==> pages[q] == sp.pages[q])
  {
    hide Copy, MapPages, Place, Insert, PageAlign, PageAlignDown, Sound;
    var r := Place(sp.regions, Start(h), Length(h));
    var sp1 := sp.(regions := Insert(sp.regions, r.value.0 + 1, Extent(found, Length(h))));
    RegionsSound(sp, sp1.regions);
    MapPagesSound(sp1, found / 0x1000, Pages(h));
    MapPagesAt(sp1, found / 0x1000, Pages(h), q);
    CopyAt(MapPages(sp1, found / 0x1000, Pages(h)), h.vaddr, file[h.offset..h.offset + h.filesz], i);
  }

  lemma RegionsSound(sp: Space, rs: seq<Extent>)
    requires Sound(sp)
    ensures Sound(sp.(regions := rs))
  {
  }

  /** What the new frame behind address a held. */
  ghost function FreshCell(sp: Space, h: Phdr, found: nat, a: nat): Cell
    requires Sound(sp) && Maps(h, found, a) && Pages(h) <= |sp.free|
  {
    sp.ram[sp.free[a / 0x1000 - found / 0x1000]][a % 0x1000]
  }

  lemma FreshPage(sp: Space, sp1: Space, h: Phdr, found: nat, a: nat)
    requires Sound(sp) && Pages(h) <= |sp.free|
    requires sp1.pages == sp.pages && sp1.ram == sp.ram && sp1.free == sp.free && Sound(sp1)
    ensures var sp2 := MapPages(sp1, found / 0x1000, Pages(h));
      && Sound(sp2)
      && (Mapped(sp2, a) <==> Maps(h, found, a) || Mapped(sp, a))
      && (Mapped(sp2, a) ==> At(sp2, a) == if Maps(h, found, a) then FreshCell(sp, h, found, a) else At(sp, a))
  {
    hide Pages, MapPages;
    MapPagesSound(sp1, found / 0x1000, Pages(h));
    MapPagesAt(sp1, found / 0x1000, Pages(h), a / 0x1000);
  }

  /** What address a holds after one segment. */
  ghost function Next(sp: Space, file: seq<Byte>, h: Phdr, found: nat, i: nat, a: nat): Cell
    requires Sound(sp) && h.ptype == PT_LOAD && h.offset + h.filesz <= |file| && Pages(h) <= |sp.free|
    requires Maps(h, found, a) || Mapped(sp, a)
  {
    if Covers(h, a) then Cell(Says(file, h, a), Some(i))
    else if Maps(h, found, a) then FreshCell(sp, h, found, a)
    else At(sp, a)
  }

  /** The last of the first n segments that maps the page of a, or -1. */
  ghost function LastMap(hs: seq<Phdr>, fs: seq<nat>, n: nat, a: nat): (i: int)
    requires n <= |hs| == |fs|
    ensures -1 <= i < n && (i >= 0 ==> Maps(hs[i], fs[i], a))
    ensures forall j :: i < j < n ==> !Maps(hs[j], fs[j], a)
  {
    if n == 0 then -1 else if Maps(hs[n - 1], fs[n - 1], a) then n - 1 else LastMap(hs, fs, n - 1, a)
  }

  /** The last of the first n segments whose file part covers a, or -1. */
  ghost function LastCover(hs: seq<Phdr>, n: nat, a: nat): (i: int)
    requires n <= |hs|
    ensures -1 <= i < n && (i >= 0 ==> Covers(hs[i], a))
    ensures forall j :: i < j < n ==> !Covers(hs[j], a)
  {
    if n == 0 then -1 else if Covers(hs[n - 1], a) then n - 1 else LastCover(hs, n - 1, a)
  }

  lemma {:induction false} UsedGrows(hs: seq<Phdr>, i: nat, n: nat)
    requires i < n <= |hs|
    ensures Used(hs, i) + Pages(hs[i]) <= Used(hs, n)
    decreases n
  {
    if i < n - 1 {
      UsedGrows(hs, i, n - 1);
    }
  }

  /** Which frame segment i put behind address a. */
  ghost function FrameFor(sp: Space, hs: seq<Phdr>, fs: seq<nat>, i: nat, a: nat): (f: Frame)
    requires i < |hs| == |fs| && Maps(hs[i], fs[i], a) && Used(hs, i) + Pages(hs[i]) <= |sp.free|
    ensures f in sp.free
  {
    sp.free[Used(hs, i) + (a / 0x1000 - fs[i] / 0x1000)]
  }

  /** What address a holds after the first n segments: the last to map its page
      and the last to copy to it decide. */
  ghost function Holds(sp: Space, file: seq<Byte>, hs: seq<Phdr>, fs: seq<nat>, n: nat, a: nat): Cell
    requires Sound(sp) && InImage(file, hs) && n <= |hs| == |fs| && Used(hs, n) <= |sp.free|
    requires LastMap(hs, fs, n, a) >= 0 || Mapped(sp, a)
  {
    var c, m := LastCover(hs, n, a), LastMap(hs, fs, n, a);
    if c >= 0 && c >= m then Cell(Says(file, hs[c], a), Some(c))
    else if m >= 0 then
      UsedGrows(hs, m, n);
      sp.ram[FrameFor(sp, hs, fs, m, a)][a % 0x1000]
    else At(sp, a)
  }

  /** The state after n segments, against the one before them. */
  ghost predicate Filled(sp: Space, sp': Space, file: seq<Byte>, hs: seq<Phdr>, fs: seq<nat>, n: nat)
    requires Sound(sp) && Sound(sp') && InImage(file, hs) && n <= |hs| == |fs|
  {
    && Used(hs, n) <= |sp.free| && sp'.free == sp.free[Used(hs, n)..]
    && (forall a: nat :: Mapped(sp', a) <==> LastMap(hs, fs, n, a) >= 0 || Mapped(sp, a))
    && (forall a: nat :: Mapped(sp', a) ==> At(sp', a) == Holds(sp, file, hs, fs, n, a))
    && (forall k :: Used(hs, n) <= k < |sp.free| ==> sp'.ram[sp.free[k]] == sp.ram[sp.free[k]])
  }

  /** Each byte is what the last copy to it wrote, unless its page was mapped
      anew since: then it is what the new frame held. Nothing is cleared. */
  lemma {:induction false} LoadedCell(sp: Space, file: seq<Byte>, hs: seq<Phdr>, n: nat)
    requires Sound(sp) && sp.regions != [] && InImage(file, hs) && n <= |hs|
    requires LoadAll(sp, file, hs, n).Running?
    ensures Filled(sp, LoadAll(sp, file, hs, n).sp, file, hs, Founds(sp.regions, hs), n)
    ensures RegionsAfter(sp.regions, hs, n) == Some(LoadAll(sp, file, hs, n).sp.regions)
  {
    hide LoadSegment, Filled, RegionsAfter, Place, Insert, FoundIn;
    if n == 0 {
      FilledStart(sp, file, hs, Founds(sp.regions, hs));
      RegionsNext(sp.regions, hs, 0, sp.regions);
    } else {
      LoadedCell(sp, file, hs, n - 1);
      var sp1 := LoadAll(sp, file, hs, n - 1).sp;
      RegionsNext(sp.regions, hs, n, sp1.regions);
      FilledStep(sp, sp1, file, hs, Founds(sp.regions, hs), n);
    }
  }

  /** The list and the place of one more segment. */
  lemma RegionsNext(es: seq<Extent>, hs: seq<Phdr>, n: nat, rs: seq<Extent>)
    requires es != [] && n <= |hs| && rs != [] && (n > 0 ==> RegionsAfter(es, hs, n - 1) == Some(rs))
    ensures n == 0 ==> RegionsAfter(es, hs, n) == Some(es)
    ensures n > 0 ==>
      var h := hs[n - 1];
      var r := Place(rs, Start(h), Length(h));
      && (h.ptype != PT_LOAD ==> RegionsAfter(es, hs, n) == Some(rs))
      && (h.ptype == PT_LOAD && r.Some? ==>
            RegionsAfter(es, hs, n) == Some(Insert(rs, r.value.0 + 1, Extent(r.value.1, Length(h)))))
  {
    hide Place, Insert;
  }

  lemma FilledStart(sp: Space, file: seq<Byte>, hs: seq<Phdr>, fs: seq<nat>)
    requires Sound(sp) && InImage(file, hs) && |fs| == |hs|
    ensures Filled(sp, sp, file, hs, fs, 0)
  {
  }

  lemma FilledStep(sp: Space, sp1: Space, file: seq<Byte>, hs: seq<Phdr>, fs: seq<nat>, n: nat)
    requires Sound(sp) && Sound(sp1) && sp1.regions != [] && InImage(file, hs) && 0 < n <= |hs| == |fs|
    requires Filled(sp, sp1, file, hs, fs, n - 1) && LoadSegment(sp1, file, hs[n - 1], n - 1).Running?
    requires fs[n - 1] == FoundIn(Some(sp1.regions), hs[n - 1])
    ensures var sp' := LoadSegment(sp1, file, hs[n - 1], n - 1).sp;
      && Filled(sp, sp', file, hs, fs, n)
      && if hs[n - 1].ptype != PT_LOAD then sp'.regions == sp1.regions
         else
           var r := Place(sp1.regions, Start(hs[n - 1]), Length(hs[n - 1]));
           r.Some? && sp'.regions == Insert(sp1.regions, r.value.0 + 1, Extent(r.value.1, Length(hs[n - 1])))
  {
    hide Filled, Place, Insert, Maps, Next, At;
    var h := hs[n - 1];
    if h.ptype == PT_LOAD {
      SegmentEffect(sp1, file, h, n - 1, fs[n - 1]);
      FilledLoad(sp, sp1, LoadSegment(sp1, file, h, n - 1).sp, file, hs, fs, n);
    } else {
      FilledSkip(sp, sp1, file, hs, fs, n);
    }
  }

  lemma FilledLoad(sp: Space, sp1: Space, sp': Space, file: seq<Byte>, hs: seq<Phdr>, fs: seq<nat>, n: nat)
    requires Sound(sp) && Sound(sp1) && Sound(sp') && InImage(file, hs) && 0 < n <= |hs| == |fs|
    requires Filled(sp, sp1, file, hs, fs, n - 1) && hs[n - 1].ptype == PT_LOAD
    requires Pages(hs[n - 1]) <= |sp1.free| && sp'.free == sp1.free[Pages(hs[n - 1])..]
    requires forall a: nat :: Mapped(sp', a) <==> Maps(hs[n - 1], fs[n - 1], a) || Mapped(sp1, a)
    requires forall a: nat :: Mapped(sp', a) ==> At(sp', a) == Next(sp1, file, hs[n - 1], fs[n - 1], n - 1, a)
    requires forall k :: Pages(hs[n - 1]) <= k < |sp1.free| ==> sp'.ram[sp1.free[k]] == sp1.ram[sp1.free[k]]
    ensures Filled(sp, sp', file, hs, fs, n)
  {
    hide Maps, Covers, Holds, Next, At, Pages, Mapped;
    forall k | Used(hs, n) <= k < |sp.free|
      ensures sp'.ram[sp.free[k]] == sp.ram[sp.free[k]]
    {
      assert sp.free[k] == sp1.free[k - Used(hs, n - 1)];
    }
    forall a: nat | Mapped(sp', a)
      ensures LastMap(hs, fs, n, a) >= 0 || Mapped(sp, a)
      ensures At(sp', a) == Holds(sp, file, hs, fs, n, a)
    {
      HoldsStep(sp, sp1, file, hs, fs, n, a);
    }
  }

  lemma FilledSkip(sp: Space, sp1: Space, file: seq<Byte>, hs: seq<Phdr>, fs: seq<nat>, n: nat)
    requires Sound(sp) && Sound(sp1) && InImage(file, hs) && 0 < n <= |hs| == |fs| && hs[n - 1].ptype != PT_LOAD
    requires Filled(sp, sp1, file, hs, fs, n - 1)
    ensures Filled(sp, sp1, file, hs, fs, n)
  {
    hide Says, FrameFor, At, Sound;
    forall a: nat
      ensures LastMap(hs, fs, n, a) == LastMap(hs, fs, n - 1, a) && LastCover(hs, n, a) == LastCover(hs, n - 1, a)
    {
    }
  }

  lemma HoldsStep(sp: Space, sp1: Space, file: seq<Byte>, hs: seq<Phdr>, fs: seq<nat>, n: nat, a: nat)
    requires Sound(sp) && Sound(sp1) && InImage(file, hs) && 0 < n <= |hs| == |fs| && hs[n - 1].ptype == PT_LOAD
    requires Filled(sp, sp1, file, hs, fs, n - 1) && Used(hs, n) <= |sp.free|
    requires Maps(hs[n - 1], fs[n - 1], a) || Mapped(sp1, a)
    ensures LastMap(hs, fs, n, a) >= 0 || Mapped(sp, a)
    ensures Next(sp1, file, hs[n - 1], fs[n - 1], n - 1, a) == Holds(sp, file, hs, fs, n, a)
  {
    hide Says, Sound, At, Maps, Covers, FreshCell, Pages;
    var h := hs[n - 1];
    if !Covers(h, a) && Maps(h, fs[n - 1], a) {
      FreshHolds(sp, sp1, Used(hs, n - 1), h, fs[n - 1], a);
    }
  }

  lemma FreshHolds(sp: Space, sp1: Space, used: nat, h: Phdr, found: nat, a: nat)
    requires Sound(sp) && Sound(sp1) && Maps(h, found, a) && used + Pages(h) <= |sp.free|
    requires sp1.free == sp.free[used..]
    requires forall k :: used <= k < |sp.free| ==> sp1.ram[sp.free[k]] == sp.ram[sp.free[k]]
    ensures FreshCell(sp1, h, found, a) == sp.ram[sp.free[used + (a / 0x1000 - found / 0x1000)]][a % 0x1000]
  {
    hide Pages;
    var k := a / 0x1000 - found / 0x1000;
    assert sp1.free[k] == sp.free[used + k];
  }

  // ---------------------------------------------------- when loading succeeds

  /** Every byte to be copied has a page by then: from its own segment, from an
      earlier one or from before. */
  ghost predicate Backed(sp: Space, hs: seq<Phdr>, fs: seq<nat>, n: nat)
    requires n <= |hs| == |fs|
  {
    forall i: nat, a: nat :: i < n && Covers(hs[i], a) ==> Mapped(sp, a) || LastMap(hs, fs, i + 1, a) >= 0
  }

  /** The first n segments are loaded without a panic or a fault exactly when no
      request is rejected or put at address 0, frames suffice and every byte has
      a page. */
  lemma {:induction false} RunsIff(sp: Space, file: seq<Byte>, hs: seq<Phdr>, n: nat)
    requires Sound(sp) && sp.regions != [] && InImage(file, hs) && n <= |hs|
    ensures LoadAll(sp, file, hs, n).Running? <==>
      Placeable(sp.regions, hs, n) && Used(hs, n) <= |sp.free| && Backed(sp, hs, Founds(sp.regions, hs), n)
  {
    hide LoadSegment, Filled, Backed, Placeable, RegionsAfter, Place;
    var fs := Founds(sp.regions, hs);
    PlaceableStep(sp.regions, hs, n);
    if n == 0 {
      BackedNone(sp, hs, fs);
    } else {
      RunsIff(sp, file, hs, n - 1);
      BackedStep(sp, hs, fs, n);
      if LoadAll(sp, file, hs, n - 1).Running? {
        LoadedCell(sp, file, hs, n - 1);
        RunsStep(sp, LoadAll(sp, file, hs, n - 1).sp, file, hs, fs, n);
      }
    }
  }

  lemma PlaceableStep(es: seq<Extent>, hs: seq<Phdr>, n: nat)
    requires es != [] && n <= |hs|
    ensures n == 0 ==> Placeable(es, hs, n)
    ensures n > 0 ==> (Placeable(es, hs, n) <==>
      && Placeable(es, hs, n - 1)
      && (hs[n - 1].ptype == PT_LOAD ==>
            && Place(RegionsAfter(es, hs, n - 1).value, Start(hs[n - 1]), Length(hs[n - 1])).Some?
            && Founds(es, hs)[n - 1] != 0))
  {
    hide RegionsAfter, Place, Insert;
    RegionsStep(es, hs, n);
  }

  lemma RegionsStep(es: seq<Extent>, hs: seq<Phdr>, n: nat)
    requires es != [] && n <= |hs|
    ensures n == 0 ==> RegionsAfter(es, hs, n).Some?
    ensures n > 0 ==> (RegionsAfter(es, hs, n).Some? <==>
      && RegionsAfter(es, hs, n - 1).Some?
      && (hs[n - 1].ptype == PT_LOAD ==>
            Place(RegionsAfter(es, hs, n - 1).value, Start(hs[n - 1]), Length(hs[n - 1])).Some?))
  {
    hide Place, Insert;
  }

  lemma BackedNone(sp: Space, hs: seq<Phdr>, fs: seq<nat>)
    requires |fs| == |hs|
    ensures Backed(sp, hs, fs, 0)
  {
  }

  lemma BackedStep(sp: Space, hs: seq<Phdr>, fs: seq<nat>, n: nat)
    requires 0 < n <= |hs| == |fs|
    ensures Backed(sp, hs, fs, n) <==>
      Backed(sp, hs, fs, n - 1) && forall a: nat :: Covers(hs[n - 1], a) ==> Mapped(sp, a) || LastMap(hs, fs, n, a) >= 0
  {
  }

  lemma RunsStep(sp: Space, sp1: Space, file: seq<Byte>, hs: seq<Phdr>, fs: seq<nat>, n: nat)
    requires Sound(sp) && Sound(sp1) && sp1.regions != [] && InImage(file, hs) && 0 < n <= |hs| == |fs|
    requires Filled(sp, sp1, file, hs, fs, n - 1) && fs[n - 1] == FoundIn(Some(sp1.regions), hs[n - 1])
    ensures LoadSegment(sp1, file, hs[n - 1], n - 1).Running? <==>
      && (hs[n - 1].ptype == PT_LOAD ==>
            Place(sp1.regions, Start(hs[n - 1]), Length(hs[n - 1])).Some? && fs[n - 1] != 0)
      && Used(hs, n) <= |sp.free|
      && forall a: nat :: Covers(hs[n - 1], a) ==> Mapped(sp, a) || LastMap(hs, fs, n, a) >= 0
  {
    hide LoadSegment, Place, Insert, PageAlign, PageAlignDown, Filled, Sound, At, Next, Mapped, Maps, Covers, LastMap;
    var h := hs[n - 1];
    FilledPages(sp, sp1, file, hs, fs, n);
    if h.ptype == PT_LOAD {
      SegmentEffect(sp1, file, h, n - 1, fs[n - 1]);
    } else {
      SkipSegment(sp1, file, h, n - 1);
    }
  }

  lemma SkipSegment(sp: Space, file: seq<Byte>, h: Phdr, i: nat)
    requires Sound(sp) && sp.regions != [] && h.ptype != PT_LOAD
    ensures LoadSegment(sp, file, h, i) == Running(sp) && Pages(h) == 0
    ensures forall a: nat :: !Covers(h, a)
    ensures forall a: nat, found: nat :: !Maps(h, found, a)
  {
  }

  lemma FilledPages(sp: Space, sp1: Space, file: seq<Byte>, hs: seq<Phdr>, fs: seq<nat>, n: nat)
    requires Sound(sp) && Sound(sp1) && InImage(file, hs) && 0 < n <= |hs| == |fs| && Filled(sp, sp1, file, hs, fs, n - 1)
    ensures |sp1.free| == |sp.free| - Used(hs, n - 1)
    ensures forall a: nat :: Maps(hs[n - 1], fs[n - 1], a) || Mapped(sp1, a) <==> Mapped(sp, a) || LastMap(hs, fs, n, a) >= 0
  {
    hide Holds, At, Maps, Mapped, Sound;
  }

  /** No segment after i maps the page of a anew, or copies to it. */
  ghost predicate KeptAt(hs: seq<Phdr>, fs: seq<nat>, i: nat, a: nat)
    requires |fs| == |hs|
  {
    forall j: nat :: i < j < |hs| ==> !Maps(hs[j], fs[j], a) && !Covers(hs[j], a)
  }

  /** No byte is taken away by a later segment. */
  ghost predicate Kept(hs: seq<Phdr>, fs: seq<nat>)
    requires |fs| == |hs|
  {
    forall i: nat, a: nat :: i < |hs| && Covers(hs[i], a) ==> KeptAt(hs, fs, i, a)
  }

  /** The program is loaded: every byte of every file part is there, as that
      segment's copy left it. */
  ghost predicate Loaded(r: Outcome, file: seq<Byte>, hs: seq<Phdr>)
    requires InImage(file, hs)
  {
    && r.Running? && Sound(r.sp)
    && forall i: nat, a: nat :: i < |hs| && Covers(hs[i], a) ==>
         Mapped(r.sp, a) && At(r.sp, a) == Cell(Says(file, hs[i], a), Some(i))
  }

  /** Nothing in memory was written by this call yet. */
  ghost predicate Untouched(sp: Space) {
    forall f, o :: f in sp.ram && 0 <= o < |sp.ram[f]| ==> sp.ram[f][o].writer == None
  }

  /** The program is loaded exactly when no request is rejected or put at address
      0, frames suffice, every byte has a page when it is copied, and no later
      segment takes that page or that byte away (Program Header, chapter 5 of the
      System V gABI). */
  lemma SegmentsLoaded(sp: Space, file: seq<Byte>, hs: seq<Phdr>)
    requires Sound(sp) && Untouched(sp) && sp.regions != [] && InImage(file, hs)
    ensures var fs := Founds(sp.regions, hs);
      Loaded(LoadAll(sp, file, hs, |hs|), file, hs) <==>
      && Placeable(sp.regions, hs, |hs|) && Used(hs, |hs|) <= |sp.free|
      && Backed(sp, hs, fs, |hs|) && Kept(hs, fs)
  {
    hide LoadAll, Placeable, Backed, Used, Sound, Says, RegionsAfter;
    var fs := Founds(sp.regions, hs);
    RunsIff(sp, file, hs, |hs|);
    if LoadAll(sp, file, hs, |hs|).Running? {
      LoadedCell(sp, file, hs, |hs|);
      CoveredMapped(sp, LoadAll(sp, file, hs, |hs|).sp, file, hs, fs);
      KeptIff(sp, LoadAll(sp, file, hs, |hs|).sp, file, hs, fs);
    }
  }

  lemma CoveredMapped(sp: Space, sp': Space, file: seq<Byte>, hs: seq<Phdr>, fs: seq<nat>)
    requires Sound(sp) && Sound(sp') && InImage(file, hs) && |fs| == |hs|
    requires Filled(sp, sp', file, hs, fs, |hs|) && Backed(sp, hs, fs, |hs|)
    ensures forall i: nat, a: nat :: i < |hs| && Covers(hs[i], a) ==> Mapped(sp', a)
  {
    hide Holds, At, Used, Mapped, Covers, Maps;
    forall i: nat, a: nat | i < |hs| && Covers(hs[i], a)
      ensures Mapped(sp', a)
    {
      if LastMap(hs, fs, i + 1, a) >= 0 {
        var m := LastMap(hs, fs, i + 1, a);
        assert Maps(hs[m], fs[m], a);
      }
    }
  }

  lemma KeptIff(sp: Space, sp': Space, file: seq<Byte>, hs: seq<Phdr>, fs: seq<nat>)
    requires Sound(sp) && Untouched(sp) && Sound(sp') && InImage(file, hs) && |fs| == |hs|
    requires Filled(sp, sp', file, hs, fs, |hs|)
    requires forall i: nat, a: nat :: i < |hs| && Covers(hs[i], a) ==> Mapped(sp', a)
    ensures Loaded(Running(sp'), file, hs) <==> Kept(hs, fs)
  {
    hide Maps, Used, At, Says, Holds, Mapped, KeptAt;
    forall i: nat, a: nat | i < |hs| && Covers(hs[i], a)
      ensures At(sp', a) == Cell(Says(file, hs[i], a), Some(i)) <==> KeptAt(hs, fs, i, a)
    {
      HoldsOwn(sp, file, hs, fs, i, a);
    }
  }

  lemma HoldsOwn(sp: Space, file: seq<Byte>, hs: seq<Phdr>, fs: seq<nat>, i: nat, a: nat)
    requires Sound(sp) && Untouched(sp) && InImage(file, hs) && |fs| == |hs| && Used(hs, |hs|) <= |sp.free|
    requires i < |hs| && Covers(hs[i], a) && (LastMap(hs, fs, |hs|, a) >= 0 || Mapped(sp, a))
    ensures Holds(sp, file, hs, fs, |hs|, a) == Cell(Says(file, hs[i], a), Some(i)) <==> KeptAt(hs, fs, i, a)
  {
    hide Maps, Covers, Used, Says, FrameFor;
    var c, m := LastCover(hs, |hs|, a), LastMap(hs, fs, |hs|, a);
    assert c >= i;
    if m > c {
      UsedGrows(hs, m, |hs|);
      assert Holds(sp, file, hs, fs, |hs|, a).writer == None;
    }
  }

  /** Bytes that no copy reached since their page was mapped are what the frame
      held before; the gABI defines those beyond p_filesz as zero. */
  lemma BssNotCleared(sp: Space, file: seq<Byte>, hs: seq<Phdr>, i: nat, a: nat)
    requires Sound(sp) && sp.regions != [] && InImage(file, hs) && LoadAll(sp, file, hs, |hs|).Running?
    requires i < |hs| && LastMap(hs, Founds(sp.regions, hs), |hs|, a) == i && LastCover(hs, |hs|, a) < i
    ensures Used(hs, i) + Pages(hs[i]) <= |sp.free| && Mapped(LoadAll(sp, file, hs, |hs|).sp, a)
    ensures At(LoadAll(sp, file, hs, |hs|).sp, a).value == 0 <==>
      sp.ram[FrameFor(sp, hs, Founds(sp.regions, hs), i, a)][a % 0x1000].value == 0
  {
    hide LoadAll, Used, Says, FrameFor, Maps, Covers, RegionsAfter;
    LoadedCell(sp, file, hs, |hs|);
    UsedGrows(hs, i, |hs|);
  }

  // ------------------------------------------------- segments in the first page

  /** No segment asks for address 0, so each is placed where it asks to be. */
  ghost predicate Explicit(hs: seq<Phdr>) {
    forall i :: 0 <= i < |hs| && hs[i].ptype == PT_LOAD ==> hs[i].vaddr >= 0x1000
  }

  lemma ExplicitFound(rs: Option<seq<Extent>>, h: Phdr)
    requires rs.Some? ==> rs.value != []
    requires h.vaddr >= 0x1000
    ensures FoundIn(rs, h) == 0 || FoundIn(rs, h) == Start(h)
    ensures FoundIn(rs, h) == 0 <==> rs.None? || Place(rs.value, Start(h), Length(h)).None?
  {
    hide Place;
  }

  /** The region at address 0, if there is one, is empty or fills its page. */
  ghost predicate EndsHigh(es: seq<Extent>) {
    forall i :: 0 <= i < |es| ==> es[i].End() == 0 || es[i].End() >= 0x1000
  }

  /** A segment is put at address 0 or above the first page. */
  lemma FoundHigh(rs: seq<Extent>, h: Phdr)
    requires rs != [] && EndsHigh(rs)
    ensures FoundIn(Some(rs), h) == 0 || FoundIn(Some(rs), h) >= 0x1000
  {
    hide StopFrom, GapFrom, Rejected;
  }

  lemma {:induction false} RegionsHigh(es: seq<Extent>, hs: seq<Phdr>, n: nat)
    requires es != [] && EndsHigh(es) && n <= |hs|
    ensures RegionsAfter(es, hs, n).Some? ==> EndsHigh(RegionsAfter(es, hs, n).value)
  {
    hide Place, EndsHigh, Insert;
    if n > 0 {
      RegionsHigh(es, hs, n - 1);
      if RegionsAfter(es, hs, n - 1).Some? {
        var rs := RegionsAfter(es, hs, n - 1).value;
        var r := Place(rs, Start(hs[n - 1]), Length(hs[n - 1]));
        if r.Some? {
          FoundHigh(rs, hs[n - 1]);
          InsertHigh(rs, r.value.0 + 1, Extent(r.value.1, Length(hs[n - 1])));
        }
      }
    }
  }

  lemma InsertHigh(rs: seq<Extent>, k: nat, x: Extent)
    requires EndsHigh(rs) && k <= |rs| && (x.base == 0 || x.base >= 0x1000) && x.length % 0x1000 == 0
    ensures EndsHigh(Insert(rs, k, x))
  {
    var es := Insert(rs, k, x);
    InsertElements(rs, k, x);
    forall i | 0 <= i < |es|
      ensures es[i].End() == 0 || es[i].End() >= 0x1000
    {
      assert es[i] == InsertedAt(rs, k, x, i);
    }
  }

  /** So nothing is ever mapped in the first page. */
  lemma FirstPageEmpty(es: seq<Extent>, hs: seq<Phdr>, n: nat, a: nat)
    requires es != [] && EndsHigh(es) && n <= |hs| && Placeable(es, hs, |hs|) && a < 0x1000
    ensures LastMap(hs, Founds(es, hs), n, a) == -1
  {
    hide RegionsAfter;
    var m := LastMap(hs, Founds(es, hs), n, a);
    if m >= 0 {
      RegionsHigh(es, hs, m);
      LowPlace(RegionsAfter(es, hs, m), hs[m], a);
    }
  }

  lemma LowPlace(rs: Option<seq<Extent>>, h: Phdr, a: nat)
    requires rs.Some? ==> rs.value != [] && EndsHigh(rs.value)
    requires FoundIn(rs, h) != 0 && a < 0x1000
    ensures !Maps(h, FoundIn(rs, h), a)
  {
    hide Place, EndsHigh;
    FoundHigh(rs.value, h);
  }

  /** What becomes of a segment that asks for the first page, when that page is
      not mapped: it is put into the first gap. There is a panic when none is
      found or the gap begins at 0, and otherwise a fault, unless nothing is to
      be copied. */
  lemma FirstPageOutcome(sp: Space, file: seq<Byte>, h: Phdr, i: nat)
    requires Sound(sp) && sp.regions != [] && EndsHigh(sp.regions) && !Mapped(sp, 0)
    requires h.ptype == PT_LOAD && h.vaddr < 0x1000 && h.offset + h.filesz <= |file| && Pages(h) <= |sp.free|
    ensures var r, found := LoadSegment(sp, file, h, i), FoundIn(Some(sp.regions), h);
      && (r == Panic <==> found == 0)
      && (r == Fault <==> found != 0 && h.filesz > 0)
      && (r.Running? <==> found != 0 && h.filesz == 0)
    ensures (sp.regions[0] == Extent(0, 0) && forall k :: 0 < k < |sp.regions| ==> sp.regions[k].length > 0) ==>
      GapFrom(sp.regions, Length(h), 0).Some? ==>
      |sp.regions| >= 2 && (FoundIn(Some(sp.regions), h) == 0 <==> Length(h) < sp.regions[1].base)
  {
    hide MapPages, Copy, Insert, Sound, GapFrom, EndsHigh, At, Next;
    assert Start(h) == 0;
    var found := FoundIn(Some(sp.regions), h);
    SegmentEffect(sp, file, h, i, found);
    if found != 0 {
      LowPlace(Some(sp.regions), h, h.vaddr);
      assert h.filesz > 0 ==> Covers(h, h.vaddr) && !Mapped(sp, h.vaddr);
    }
    if GapFrom(sp.regions, Length(h), 0).Some? {
      GapFromFirst(sp.regions, Length(h), 0);
      if sp.regions[0] == Extent(0, 0) && (forall k :: 0 < k < |sp.regions| ==> sp.regions[k].length > 0) {
        AutomaticNull(sp.regions, Length(h), GapFrom(sp.regions, Length(h), 0).value);
      }
    }
  }

  /** With the first page unused and no segment there without a file part, a
      program is loaded only if every segment asks for a higher address; then
      each is placed where it asks to be. */
  lemma OnlyExplicit(sp: Space, file: seq<Byte>, hs: seq<Phdr>)
    requires Sound(sp) && Untouched(sp) && sp.regions != [] && EndsHigh(sp.regions) && !Mapped(sp, 0)
    requires InImage(file, hs)
    requires forall i :: 0 <= i < |hs| && hs[i].ptype == PT_LOAD && hs[i].vaddr < 0x1000 ==> hs[i].filesz > 0
    ensures var fs := Founds(sp.regions, hs);
      Loaded(LoadAll(sp, file, hs, |hs|), file, hs) <==>
      && Explicit(hs) && RegionsAfter(sp.regions, hs, |hs|).Some? && Used(hs, |hs|) <= |sp.free|
      && Backed(sp, hs, fs, |hs|) && Kept(hs, fs)
    ensures Explicit(hs) && RegionsAfter(sp.regions, hs, |hs|).Some? ==>
      forall i :: 0 <= i < |hs| && hs[i].ptype == PT_LOAD ==> Founds(sp.regions, hs)[i] == Start(hs[i])
  {
    hide LoadAll, Loaded, Backed, Kept, Used, Sound, Untouched, EndsHigh, RegionsAfter;
    var es, fs := sp.regions, Founds(sp.regions, hs);
    SegmentsLoaded(sp, file, hs);
    if Explicit(hs) && RegionsAfter(es, hs, |hs|).Some? {
      ExplicitPlaceable(es, hs);
    } else if Placeable(es, hs, |hs|) && Backed(sp, hs, fs, |hs|) {
      var i :| 0 <= i < |hs| && hs[i].ptype == PT_LOAD && hs[i].vaddr < 0x1000;
      BackedAt(sp, hs, fs, i, hs[i].vaddr);
      FirstPageEmpty(es, hs, i + 1, hs[i].vaddr);
    }
  }

  lemma BackedAt(sp: Space, hs: seq<Phdr>, fs: seq<nat>, i: nat, a: nat)
    requires |fs| == |hs| && Backed(sp, hs, fs, |hs|) && i < |hs| && Covers(hs[i], a)
    ensures Mapped(sp, a) || LastMap(hs, fs, i + 1, a) >= 0
  {
  }

  lemma ExplicitPlaceable(es: seq<Extent>, hs: seq<Phdr>)
    requires es != [] && Explicit(hs) && RegionsAfter(es, hs, |hs|).Some?
    ensures Placeable(es, hs, |hs|)
    ensures forall i :: 0 <= i < |hs| && hs[i].ptype == PT_LOAD ==> Founds(es, hs)[i] == Start(hs[i])
  {
    hide Place, RegionsAfter;
    forall i | 0 <= i < |hs| && hs[i].ptype == PT_LOAD
      ensures Founds(es, hs)[i] == Start(hs[i]) && Founds(es, hs)[i] != 0
    {
      RegionsBefore(es, hs, i, |hs|);
      ExplicitFound(RegionsAfter(es, hs, i), hs[i]);
    }
  }

  lemma {:induction false} RegionsBefore(es: seq<Extent>, hs: seq<Phdr>, i: nat, n: nat)
    requires es != [] && i < n <= |hs| && RegionsAfter(es, hs, n).Some?
    ensures RegionsAfter(es, hs, i).Some?
    ensures hs[i].ptype == PT_LOAD ==> Place(RegionsAfter(es, hs, i).value, Start(hs[i]), Length(hs[i])).Some?
    decreases n
  {
    hide Place, Insert;
    if i < n - 1 {
      RegionsBefore(es, hs, i, n - 1);
    }
  }

  // -------------------------------------------- segments on pages of their own

  /** The file part of the segment stays on the pages mapped for it. */
  predicate Fits(h: Phdr) {
    h.ptype == PT_LOAD && h.filesz > 0 ==> h.vaddr % 0x1000 + h.filesz <= Length(h)
  }

  /** Where the pages and the file part of the segment end. */
  function TouchEnd(h: Phdr): nat {
    if h.filesz > 0 && h.vaddr + h.filesz > Start(h) + Length(h) then h.vaddr + h.filesz else Start(h) + Length(h)
  }

  ghost predicate Touches(h: Phdr, a: nat) {
    h.ptype == PT_LOAD && Start(h) <= a < TouchEnd(h)
  }

  lemma TouchesBoth(h: Phdr, a: nat)
    requires Maps(h, Start(h), a) || Covers(h, a)
    ensures Touches(h, a)
  {
  }

  /** Every segment is placed where it asks to be. */
  ghost predicate AtStart(hs: seq<Phdr>, fs: seq<nat>) {
    |fs| == |hs| && forall i :: 0 <= i < |hs| && hs[i].ptype == PT_LOAD ==> fs[i] == Start(hs[i])
  }

  lemma TouchesPlaced(hs: seq<Phdr>, fs: seq<nat>, i: nat, a: nat)
    requires AtStart(hs, fs) && i < |hs| && (Maps(hs[i], fs[i], a) || Covers(hs[i], a))
    ensures Touches(hs[i], a)
  {
    TouchesBoth(hs[i], a);
  }

  /** No two segments share a page. */
  ghost predicate PagesApart(hs: seq<Phdr>) {
    forall i: nat, j: nat :: i < j < |hs| && hs[i].ptype == PT_LOAD && hs[j].ptype == PT_LOAD ==>
      TouchEnd(hs[i]) <= Start(hs[j]) || (Start(hs[j]) < Start(hs[i]) && TouchEnd(hs[j]) <= Start(hs[i]))
  }

  /** Their pages are not taken yet. */
  ghost predicate Unused(sp: Space, hs: seq<Phdr>) {
    && (forall i: nat :: i < |hs| && hs[i].ptype == PT_LOAD ==> InGap(sp.regions, Start(hs[i]), Length(hs[i])))
    && (forall i: nat, a: nat :: i < |hs| && Touches(hs[i], a) ==> !Mapped(sp, a))
  }

  lemma {:induction false} ApartAccepted(es: seq<Extent>, hs: seq<Phdr>, n: nat)
    requires Disjoint(es) && es != [] && es[0].base == 0 && Explicit(hs) && PagesApart(hs) && n <= |hs|
    requires forall i: nat :: i < |hs| && hs[i].ptype == PT_LOAD ==> InGap(es, Start(hs[i]), Length(hs[i]))
    ensures RegionsAfter(es, hs, n).Some?
    ensures var rs := RegionsAfter(es, hs, n).value;
      && Disjoint(rs) && rs[0].base == 0
      && forall i: nat :: n <= i < |hs| && hs[i].ptype == PT_LOAD ==> InGap(rs, Start(hs[i]), Length(hs[i]))
  {
    hide Disjoint, InGap, Start, Length;
    if n > 0 {
      ApartAccepted(es, hs, n - 1);
      if hs[n - 1].ptype == PT_LOAD {
        AcceptOne(RegionsAfter(es, hs, n - 1).value, hs, n);
      }
    }
  }

  lemma AcceptOne(rs: seq<Extent>, hs: seq<Phdr>, n: nat)
    requires Disjoint(rs) && rs != [] && rs[0].base == 0 && Explicit(hs) && PagesApart(hs) && 0 < n <= |hs|
    requires hs[n - 1].ptype == PT_LOAD
    requires forall i: nat :: n - 1 <= i < |hs| && hs[i].ptype == PT_LOAD ==> InGap(rs, Start(hs[i]), Length(hs[i]))
    ensures var h := hs[n - 1];
      var r := Place(rs, Start(h), Length(h));
      && r.Some?
      && var rs' := Insert(rs, r.value.0 + 1, Extent(r.value.1, Length(h)));
         && Disjoint(rs') && rs'[0].base == 0
         && forall i: nat :: n <= i < |hs| && hs[i].ptype == PT_LOAD ==> InGap(rs', Start(hs[i]), Length(hs[i]))
  {
    hide Disjoint, Insert, PageAlign, PageAlignDown;
    var h := hs[n - 1];
    var k := StopFrom(rs, Start(h), 0);
    StopFromStops(rs, Start(h), 0);
    ExplicitDisjoint(rs, Start(h), Length(h), k);
    InsertElements(rs, k + 1, Extent(Start(h), Length(h)));
    var rs' := Insert(rs, k + 1, Extent(Start(h), Length(h)));
    assert rs'[0] == InsertedAt(rs, k + 1, Extent(Start(h), Length(h)), 0);
    forall i: nat | n <= i < |hs| && hs[i].ptype == PT_LOAD
      ensures InGap(rs', Start(hs[i]), Length(hs[i]))
    {
      GapBeside(rs, rs', k + 1, h, hs[i]);
    }
  }

  lemma GapBeside(rs: seq<Extent>, rs': seq<Extent>, k: nat, h: Phdr, g: Phdr)
    requires k <= |rs| && rs' == Insert(rs, k, Extent(Start(h), Length(h))) && InGap(rs, Start(g), Length(g))
    requires TouchEnd(h) <= Start(g) || (Start(g) < Start(h) && TouchEnd(g) <= Start(h))
    ensures InGap(rs', Start(g), Length(g))
  {
    hide Start, Length, Insert;
    InsertElements(rs, k, Extent(Start(h), Length(h)));
    forall i | 0 <= i < |rs'|
      ensures rs'[i].End() <= Start(g) || (Start(g) < rs'[i].base && Start(g) + Length(g) <= rs'[i].base)
    {
      assert rs'[i] == InsertedAt(rs, k, Extent(Start(h), Length(h)), i);
    }
  }

  lemma ApartKept(hs: seq<Phdr>, fs: seq<nat>)
    requires PagesApart(hs) && AtStart(hs, fs)
    ensures Kept(hs, fs)
  {
    hide Covers, Maps, TouchEnd, Start;
    forall i: nat, a: nat, j: nat | i < j < |hs| && Covers(hs[i], a) && (Maps(hs[j], fs[j], a) || Covers(hs[j], a))
      ensures false
    {
      TouchesPlaced(hs, fs, i, a);
      TouchesPlaced(hs, fs, j, a);
    }
  }

  /** A byte has a page exactly when it lies on one of its own segment. */
  lemma ApartBacked(sp: Space, hs: seq<Phdr>, fs: seq<nat>)
    requires PagesApart(hs) && Unused(sp, hs) && AtStart(hs, fs)
    ensures Backed(sp, hs, fs, |hs|) <==> forall i :: 0 <= i < |hs| ==> Fits(hs[i])
  {
    hide Mapped, InGap, Covers, Maps, Fits, PagesApart, Unused, LastMap;
    forall i: nat, a: nat | i < |hs| && Covers(hs[i], a)
      ensures !Mapped(sp, a) && (LastMap(hs, fs, i + 1, a) >= 0 <==> Maps(hs[i], Start(hs[i]), a))
    {
      OwnPage(sp, hs, fs, i, a);
    }
    if Backed(sp, hs, fs, |hs|) {
      forall i: nat | i < |hs|
        ensures Fits(hs[i])
      {
        forall a: nat | Covers(hs[i], a)
          ensures Maps(hs[i], Start(hs[i]), a)
        {
          BackedAt(sp, hs, fs, i, a);
        }
        FitsMaps(hs[i]);
      }
    }
    if forall i :: 0 <= i < |hs| ==> Fits(hs[i]) {
      forall i: nat, a: nat | i < |hs| && Covers(hs[i], a)
        ensures LastMap(hs, fs, i + 1, a) >= 0
      {
        FitsMaps(hs[i]);
        OwnPage(sp, hs, fs, i, a);
      }
    }
  }

  lemma OwnPage(sp: Space, hs: seq<Phdr>, fs: seq<nat>, i: nat, a: nat)
    requires PagesApart(hs) && Unused(sp, hs) && AtStart(hs, fs) && i < |hs| && Covers(hs[i], a)
    ensures !Mapped(sp, a) && (LastMap(hs, fs, i + 1, a) >= 0 <==> Maps(hs[i], Start(hs[i]), a))
  {
    hide Mapped, InGap, Maps, TouchEnd, Start;
    TouchesPlaced(hs, fs, i, a);
    var m := LastMap(hs, fs, i + 1, a);
    if 0 <= m < i {
      TouchesPlaced(hs, fs, m, a);
      assert false;
    }
  }

  lemma FitsMaps(h: Phdr)
    ensures Fits(h) <==> forall a: nat :: Covers(h, a) ==> Maps(h, Start(h), a)
  {
    if h.ptype == PT_LOAD && h.filesz > 0 && !Fits(h) {
      var a := if h.vaddr < Start(h) + Length(h) then Start(h) + Length(h) else h.vaddr;
      assert Covers(h, a) && !Maps(h, Start(h), a);
    }
  }

  /** For segments that share no page, with each other or with what is there, in
      a space with an unused first page: the program is loaded exactly when none
      of them asks for the first page and every file part stays on the pages
      mapped for its segment. */
  lemma FitsIff(sp: Space, file: seq<Byte>, hs: seq<Phdr>)
    requires Sound(sp) && Untouched(sp) && Disjoint(sp.regions) && sp.regions != [] && sp.regions[0].base == 0
    requires EndsHigh(sp.regions) && !Mapped(sp, 0) && InImage(file, hs)
    requires forall i :: 0 <= i < |hs| && hs[i].ptype == PT_LOAD && hs[i].vaddr < 0x1000 ==> hs[i].filesz > 0
    requires PagesApart(hs) && Unused(sp, hs) && Used(hs, |hs|) <= |sp.free|
    ensures Loaded(LoadAll(sp, file, hs, |hs|), file, hs) <==> Explicit(hs) && forall i :: 0 <= i < |hs| ==> Fits(hs[i])
  {
    hide Loaded, LoadAll, Backed, Kept, Sound, Untouched, Used, Disjoint, Fits, PagesApart, RegionsAfter;
    OnlyExplicit(sp, file, hs);
    if Explicit(hs) {
      ApartAccepted(sp.regions, hs, |hs|);
      ApartKept(hs, Founds(sp.regions, hs));
      ApartBacked(sp, hs, Founds(sp.regions, hs));
    }
  }

  // ------------------------------------------------- what goes wrong otherwise

  /** The region list of a new space. */
  function NewRegions(kernelBytes: nat): seq<Extent> {
    [Extent(0, 0)] + KernelExtents(kernelBytes)
  }

  /** A segment of 32 bytes that crosses a page boundary: one page is mapped, and
      the copy faults on the next. */
  lemma CrossingFaults(sp: Space, file: seq<Byte>, offset: nat, kernelBytes: nat, i: nat)
    requires Sound(sp) && sp.regions == NewRegions(kernelBytes) && offset + 0x20 <= |file| && |sp.free| >= 1
    requires !Mapped(sp, 0x401000)
    ensures LoadSegment(sp, file, Phdr(PT_LOAD, offset, 0x400ff0, 0x20, 0x20), i) == Fault
  {
    hide Copy, MapPages, Sound;
    var h := Phdr(PT_LOAD, offset, 0x400ff0, 0x20, 0x20);
    assert Start(h) == 0x400000 && Length(h) == 0x1000;
    assert sp.regions[0] == Extent(0, 0) && sp.regions[1].base == KERNEL_TEXT_START;
    assert Place(sp.regions, Start(h), Length(h)) == Some((0, 0x400000));
    SegmentEffect(sp, file, h, i, 0x400000);
    assert Covers(h, 0x401000) && !Maps(h, 0x400000, 0x401000);
  }

  /** Three segments in header order that share no byte. */
  function SharingHeaders(c: nat, a: nat, b: nat): seq<Phdr> {
    [Phdr(PT_LOAD, c, 0x402000, 0x100, 0x100),
     Phdr(PT_LOAD, a, 0x400000, 0x1800, 0x1800),
     Phdr(PT_LOAD, b, 0x401900, 0x100, 0x100)]
  }

  /** All three requests are accepted, the third although it lies inside the
      second region: it ends exactly where the next one begins. */
  lemma SharingAccepted(c: nat, a: nat, b: nat, kernelBytes: nat)
    ensures RegionsAfter(NewRegions(kernelBytes), SharingHeaders(c, a, b), 3).Some?
  {
    var hs, K := SharingHeaders(c, a, b), KernelExtents(kernelBytes);
    var es0 := NewRegions(kernelBytes);
    assert es0[1] == K[0];
    assert StopFrom(es0, 0x402000, 0) == 0;
    var C, A := Extent(0x402000, 0x1000), Extent(0x400000, 0x2000);
    var es1 := Insert(es0, 1, C);
    assert es1 == [Extent(0, 0), C] + K;
    assert RegionsAfter(es0, hs, 1) == Some(es1) by { assert RegionsAfter(es0, hs, 0) == Some(es0); }
    assert StopFrom(es1, 0x400000, 0) == 0;
    var es2 := Insert(es1, 1, A);
    assert es2 == [Extent(0, 0), A, C] + K;
    assert RegionsAfter(es0, hs, 2) == Some(es2);
    assert StopFrom(es2, 0x401000, 1) == 1;
    assert StopFrom(es2, 0x401000, 0) == 1;
  }

  /** Yet the third segment maps a new frame over the last page of the second,
      whose bytes there are lost. */
  lemma SharingLoses(sp: Space, file: seq<Byte>, c: nat, a: nat, b: nat, kernelBytes: nat)
    requires Sound(sp) && Untouched(sp) && sp.regions == NewRegions(kernelBytes) && |sp.free| >= 4
    requires InImage(file, SharingHeaders(c, a, b))
    ensures var hs := SharingHeaders(c, a, b);
      && (forall i: nat, j: nat, x: nat :: i < j < 3 && Covers(hs[i], x) ==> !Covers(hs[j], x))
      && LoadAll(sp, file, hs, 3).Running?
      && Covers(hs[1], 0x401000) && Mapped(LoadAll(sp, file, hs, 3).sp, 0x401000)
      && At(LoadAll(sp, file, hs, 3).sp, 0x401000) == sp.ram[sp.free[3]][0]
      && At(LoadAll(sp, file, hs, 3).sp, 0x401000).writer == None
      && !Loaded(LoadAll(sp, file, hs, 3), file, hs)
  {
    hide LoadAll, RegionsAfter, Says, Place, Maps, PageAlign, PageAlignDown, Backed, Placeable;
    var hs := SharingHeaders(c, a, b);
    var fs := Founds(sp.regions, hs);
    SharingAccepted(c, a, b, kernelBytes);
    ExplicitPlaceable(sp.regions, hs);
    SharingPages(c, a, b);
    SharingBacked(sp, c, a, b, fs);
    RunsIff(sp, file, hs, 3);
    LoadedCell(sp, file, hs, 3);
    SharingLast(c, a, b, fs);
    assert Holds(sp, file, hs, fs, 3, 0x401000) == sp.ram[sp.free[3]][0];
  }

  lemma SharingBacked(sp: Space, c: nat, a: nat, b: nat, fs: seq<nat>)
    requires AtStart(SharingHeaders(c, a, b), fs)
    ensures Backed(sp, SharingHeaders(c, a, b), fs, 3)
  {
    var hs := SharingHeaders(c, a, b);
    forall i: nat, x: nat | i < 3 && Covers(hs[i], x)
      ensures LastMap(hs, fs, i + 1, x) >= 0
    {
      assert Maps(hs[i], Start(hs[i]), x);
    }
  }

  lemma SharingPages(c: nat, a: nat, b: nat)
    ensures var hs := SharingHeaders(c, a, b);
      Used(hs, 1) == 1 && Used(hs, 2) == 3 && Used(hs, 3) == 4
  {
    var hs := SharingHeaders(c, a, b);
    assert Used(hs, 0) == 0 && Pages(hs[0]) == 1 && Pages(hs[1]) == 2 && Pages(hs[2]) == 1;
    assert Used(hs, 1) == 1;
    assert Used(hs, 2) == 3;
  }

  lemma SharingLast(c: nat, a: nat, b: nat, fs: seq<nat>)
    requires AtStart(SharingHeaders(c, a, b), fs)
    ensures var hs := SharingHeaders(c, a, b);
      LastMap(hs, fs, 3, 0x401000) == 2 && LastCover(hs, 3, 0x401000) == 1 && fs[2] == 0x401000
  {
    var hs := SharingHeaders(c, a, b);
    assert Maps(hs[2], fs[2], 0x401000) && !Covers(hs[2], 0x401000) && Covers(hs[1], 0x401000);
  }

  /** Both other outcomes of a segment in the first page, on a list that one
      allocation leads to: 16 bytes at 0x10 fault, and a segment there without a
      file part is loaded. */
  lemma FirstPageExamples(sp: Space, file: seq<Byte>, offset: nat, kernelBytes: nat, i: nat)
    requires Sound(sp) && sp.regions == [Extent(0, 0), Extent(0x1000, 0x1000)] + KernelExtents(kernelBytes)
    requires !Mapped(sp, 0) && offset + 0x10 <= |file| && |sp.free| >= 1
    ensures LoadSegment(sp, file, Phdr(PT_LOAD, offset, 0x10, 0x10, 0x10), i) == Fault
    ensures LoadSegment(sp, file, Phdr(PT_LOAD, offset, 0x10, 0, 0x10), i).Running?
  {
    hide Sound, LoadSegment, Place, GapFrom, EndsHigh;
    FirstPagePlace(kernelBytes);
    FirstPageOutcome(sp, file, Phdr(PT_LOAD, offset, 0x10, 0x10, 0x10), i);
    FirstPageOutcome(sp, file, Phdr(PT_LOAD, offset, 0x10, 0, 0x10), i);
  }

  lemma FirstPagePlace(kernelBytes: nat)
    ensures var es := [Extent(0, 0), Extent(0x1000, 0x1000)] + KernelExtents(kernelBytes);
      Place(es, 0, 0x1000) == Some((1, 0x2000)) && EndsHigh(es)
  {
    var es := [Extent(0, 0), Extent(0x1000, 0x1000)] + KernelExtents(kernelBytes);
    assert es[0] == Extent(0, 0) && es[1] == Extent(0x1000, 0x1000) && es[2].base == KERNEL_TEXT_START;
    assert !GapAfter(es, 0, 0x1000) && GapAfter(es, 1, 0x1000);
    assert GapFrom(es, 0x1000, 1) == Some(1);
  }
}
