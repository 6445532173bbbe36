/** Region lists as sequences of extents: what the list edits of `vmm_alloc`,
    `vmm_lengthen` and `vmm_free` do to order and disjointness. */
module RegionSpec {
  import opened Common

  datatype Extent = Extent(base: nat, length: nat) {
    function End(): nat { base + length }
  }

  ghost predicate Sorted(es: seq<Extent>) {
    forall i, j :: 0 <= i < j < |es| ==> es[i].base <= es[j].base
  }

  /** In order and without overlap. */
  ghost predicate Disjoint(es: seq<Extent>) {
    forall i, j :: 0 <= i < j < |es| ==> es[i].End() <= es[j].base
  }

  /** [start, start + length) meets no extent; an empty request must not lie
      inside or at the start of one either. */
  ghost predicate InGap(es: seq<Extent>, start: nat, length: nat) {
    forall i :: 0 <= i < |es| ==>
      es[i].End() <= start || (start < es[i].base && start + length <= es[i].base)
  }

  /** The four regions of the kernel image, in list order. */
  function KernelExtents(kernelBytes: nat): seq<Extent> {
    [Extent(KERNEL_TEXT_START, kernelBytes), Extent(VGA_TEXT_BUFFER_BASE, 0x1000),
     Extent(KERNEL_PMM_START, 0x1000), Extent(KERNEL_PAGE_TBL_START, 0x6000)]
  }

  lemma InsertFront<T>(p: seq<T>, tail: seq<T>, m: nat, n: T)
    requires m <= |p|
    ensures Insert(p + tail, m, n) == Insert(p, m, n) + tail
  {
  }

  lemma InsertBack<T>(p: seq<T>, tail: seq<T>, m: nat, n: T)
    requires m <= |tail|
    ensures Insert(p + tail, |p| + m, n) == p + Insert(tail, m, n)
  {
  }

  lemma DeleteFront<T>(p: seq<T>, tail: seq<T>, m: nat)
    requires m < |p|
    ensures Without(p + tail, m) == Without(p, m) + tail
  {
  }

  lemma DeleteBack<T>(p: seq<T>, tail: seq<T>, m: nat)
    requires m < |tail|
    ensures Without(p + tail, |p| + m) == p + Without(tail, m)
  {
  }

  // ------------------------------------------------------- explicit placement

  /** Node k is where the explicit search stops: start lies between its base
      and the next one, or it is the last. */
  ghost predicate StopsAt(es: seq<Extent>, start: nat, k: nat) {
    && k < |es|
    && (k + 1 < |es| ==> es[k].base <= start < es[k + 1].base)
    && (forall i :: 0 <= i < k ==> !(es[i].base <= start < es[i + 1].base))
  }

  /** The test that makes `vmm_alloc` return NULL. */
  predicate Rejected(es: seq<Extent>, k: nat, start: nat, length: nat) {
    k + 1 < |es| && start < es[k].End() && start + length < es[k + 1].base
  }

  /** The search itself, from node k on. */
  function StopFrom(es: seq<Extent>, start: nat, k: nat): (n: nat)
    requires k < |es|
    ensures k <= n < |es|
    decreases |es| - k
  {
    if k + 1 < |es| && !(es[k].base <= start < es[k + 1].base) then StopFrom(es, start, k + 1) else k
  }

  lemma {:induction false} StopFromStops(es: seq<Extent>, start: nat, k: nat)
    requires k < |es| && forall i :: 0 <= i < k ==> !(es[i].base <= start < es[i + 1].base)
    ensures StopsAt(es, start, StopFrom(es, start, k))
    decreases |es| - k
  {
    if k + 1 < |es| && !(es[k].base <= start < es[k + 1].base) {
      StopFromStops(es, start, k + 1);
    }
  }

  /** In a sorted list from base 0 the search stops at the last region that
      does not begin after the request. */
  lemma StopIsLast(es: seq<Extent>, start: nat, k: nat)
    requires Sorted(es) && es != [] && es[0].base == 0 && StopsAt(es, start, k)
    ensures forall i :: 0 <= i < |es| ==> (es[i].base <= start <==> i <= k)
  {
    forall i | 0 <= i < |es|
      ensures es[i].base <= start <==> i <= k
    {
      if i <= k {
        NotAfter(es, start, k, i);
      } else {
        assert es[k + 1].base <= es[i].base;
      }
    }
  }

  lemma {:induction false} NotAfter(es: seq<Extent>, start: nat, k: nat, i: nat)
    requires Sorted(es) && es != [] && es[0].base == 0 && StopsAt(es, start, k) && i <= k
    ensures es[i].base <= start
  {
    if i > 0 {
      NotAfter(es, start, k, i - 1);
      assert !(es[i - 1].base <= start < es[i].base);
    }
  }

  /** Region i is the last one that does not begin after start. */
  ghost predicate LastNotAfter(es: seq<Extent>, start: nat, i: nat) {
    i < |es| && es[i].base <= start && forall j :: i < j < |es| ==> start < es[j].base
  }

  /** The requests that are refused: the last region not beginning after start
      reaches beyond it, and the request ends before the region that follows. */
  ghost predicate Refuses(es: seq<Extent>, start: nat, length: nat) {
    exists i: nat :: LastNotAfter(es, start, i) && i + 1 < |es| && start < es[i].End() && start + length < es[i + 1].base
  }

  lemma RefusedIff(es: seq<Extent>, start: nat, length: nat, k: nat)
    requires Sorted(es) && es != [] && es[0].base == 0 && StopsAt(es, start, k)
    ensures LastNotAfter(es, start, k) && (Rejected(es, k, start, length) <==> Refuses(es, start, length))
  {
    StopIsLast(es, start, k);
    if i: nat :| LastNotAfter(es, start, i) && i + 1 < |es| && start < es[i].End() && start + length < es[i + 1].base {
      assert i == k;
    }
  }

  /** Explicit placement keeps the list sorted, whatever is requested. */
  lemma ExplicitSorted(es: seq<Extent>, start: nat, length: nat, k: nat)
    requires Sorted(es) && es != [] && es[0].base == 0 && StopsAt(es, start, k)
    ensures Sorted(Insert(es, k + 1, Extent(start, length)))
    ensures es[k].base <= start && (k + 1 < |es| ==> start < es[k + 1].base)
  {
    StopIsLast(es, start, k);
    InsertSorted(es, k, Extent(start, length));
  }

  lemma InsertSorted(es: seq<Extent>, k: nat, x: Extent)
    requires Sorted(es) && k < |es| && es[k].base <= x.base && (k + 1 < |es| ==> x.base <= es[k + 1].base)
    ensures Sorted(Insert(es, k + 1, x))
  {
    var l := Insert(es, k + 1, x);
    InsertElements(es, k + 1, x);
    forall i, j | 0 <= i < j < |l|
      ensures l[i].base <= l[j].base
    {
      assert l[i] == InsertedAt(es, k + 1, x, i) && l[j] == InsertedAt(es, k + 1, x, j);
    }
  }

  lemma InsertElements<T>(s: seq<T>, i: nat, x: T)
    requires i <= |s|
    ensures |Insert(s, i, x)| == |s| + 1
    ensures forall n :: 0 <= n <= |s| ==> Insert(s, i, x)[n] == InsertedAt(s, i, x, n)
  {
  }

  ghost function InsertedAt<T>(s: seq<T>, i: nat, x: T, n: nat): T
    requires i <= |s| && n <= |s|
  {
    if n < i then s[n] else if n == i then x else s[n - 1]
  }

  /** It keeps the list disjoint exactly when the request lies in a gap. The
      test that may reject it plays no part in this. */
  lemma ExplicitDisjoint(es: seq<Extent>, start: nat, length: nat, k: nat)
    requires Disjoint(es) && es != [] && es[0].base == 0 && StopsAt(es, start, k)
    ensures Disjoint(Insert(es, k + 1, Extent(start, length))) <==> InGap(es, start, length)
    ensures InGap(es, start, length) ==> !Rejected(es, k, start, length)
  {
    var es' := Insert(es, k + 1, Extent(start, length));
    DisjointSorted(es);
    StopIsLast(es, start, k);
    InsertElements(es, k + 1, Extent(start, length));
    if Disjoint(es') {
      forall i | 0 <= i < |es|
        ensures es[i].End() <= start || (start < es[i].base && start + length <= es[i].base)
      {
        if i <= k {
          assert es'[i].End() <= es'[k + 1].base;
        } else {
          assert es'[k + 1].End() <= es'[i + 1].base;
        }
      }
    }
    if InGap(es, start, length) {
      InGapDisjoint(es, es', start, length, k);
    }
  }

  lemma InGapDisjoint(es: seq<Extent>, es': seq<Extent>, start: nat, length: nat, k: nat)
    requires Disjoint(es) && k < |es| && InGap(es, start, length)
    requires forall i :: 0 <= i < |es| ==> (es[i].base <= start <==> i <= k)
    requires |es'| == |es| + 1
    requires forall n :: 0 <= n <= |es| ==> es'[n] == InsertedAt(es, k + 1, Extent(start, length), n)
    ensures Disjoint(es')
  {
    forall i, j | 0 <= i < j < |es'|
      ensures es'[i].End() <= es'[j].base
    {
      var a := if i <= k then i else i - 1;
      var b := if j <= k then j else j - 1;
      assert es'[i] == if i == k + 1 then Extent(start, length) else es[a];
      assert es'[j] == if j == k + 1 then Extent(start, length) else es[b];
      if i != k + 1 && j != k + 1 {
        assert es[a].End() <= es[b].base;
      } else if j == k + 1 {
        assert es[i].base <= start && es[i].End() <= start;
      } else {
        assert es[b].base > start && es[b].End() > start;
      }
    }
  }

  /** What is kept in one space is kept in all: a tail that fits behind one
      private front fits behind every front the old tail was behind. */
  lemma SwapFront(p: seq<Extent>, q: seq<Extent>, t: seq<Extent>, t': seq<Extent>)
    requires Disjoint(q + t) && Disjoint(p + t') && t != [] && t' != [] && t'[0].base == t[0].base
    ensures Disjoint(q + t')
  {
    var a, b, c := q + t, p + t', q + t';
    forall i, j | 0 <= i < j < |c|
      ensures c[i].End() <= c[j].base
    {
      if j < |q| {
        assert a[i].End() <= a[j].base;
      } else if i >= |q| {
        assert b[|p| + i - |q|].End() <= b[|p| + j - |q|].base;
      } else {
        assert a[i].End() <= a[|q|].base;
        assert j > |q| ==> b[|p|].End() <= b[|p| + j - |q|].base;
      }
    }
  }

  lemma DisjointSorted(es: seq<Extent>)
    requires Disjoint(es)
    ensures Sorted(es)
  {
    forall i, j | 0 <= i < j < |es|
      ensures es[i].base <= es[j].base
    {
      assert es[i].End() <= es[j].base;
    }
  }

  /** The user regions that two allocations below the kernel leave. */
  function TwoRegions(kernelBytes: nat): seq<Extent> {
    [Extent(0, 0), Extent(0x1000, 0x2000), Extent(0x4000, 0x1000)] + KernelExtents(kernelBytes)
  }

  /** The list is one that a space can have: two requests on a new space lead
      to it. */
  lemma TwoRegionsReached(kernelBytes: nat)
    ensures var es := [Extent(0, 0)] + KernelExtents(kernelBytes);
      var es1 := Insert(es, 1, Extent(0x1000, 0x2000));
      && StopsAt(es, 0x1000, 0) && !Rejected(es, 0, 0x1000, 0x2000)
      && StopsAt(es1, 0x4000, 1) && !Rejected(es1, 1, 0x4000, 0x1000)
      && Insert(es1, 2, Extent(0x4000, 0x1000)) == TwoRegions(kernelBytes)
  {
    var es := [Extent(0, 0)] + KernelExtents(kernelBytes);
    var es1 := Insert(es, 1, Extent(0x1000, 0x2000));
    assert es1 == [Extent(0, 0), Extent(0x1000, 0x2000)] + KernelExtents(kernelBytes);
    assert es[1].base == KERNEL_TEXT_START && es1[2].base == KERNEL_TEXT_START;
  }

  /** The test does miss overlaps: a request that begins inside one region and
      reaches exactly the next is accepted. */
  lemma OverlapAccepted(kernelBytes: nat)
    requires kernelBytes <= VGA_TEXT_BUFFER_BASE - KERNEL_TEXT_START
    ensures var es := TwoRegions(kernelBytes);
      && Disjoint(es) && StopsAt(es, 0x2000, 1) && !Rejected(es, 1, 0x2000, 0x2000)
      && !Disjoint(Insert(es, 2, Extent(0x2000, 0x2000)))
  {
    var es := TwoRegions(kernelBytes);
    var x := Extent(0x2000, 0x2000);
    assert es == [Extent(0, 0), Extent(0x1000, 0x2000), Extent(0x4000, 0x1000),
                  Extent(KERNEL_TEXT_START, kernelBytes), Extent(VGA_TEXT_BUFFER_BASE, 0x1000),
                  Extent(KERNEL_PMM_START, 0x1000), Extent(KERNEL_PAGE_TBL_START, 0x6000)];
    var es' := Insert(es, 2, x);
    assert es'[1] == es[1] && es'[2] == x;
  }

  /** On the same list a request that begins inside a region and leaves room
      before the next is refused. */
  lemma OverlapRefused(kernelBytes: nat)
    ensures Refuses(TwoRegions(kernelBytes), 0x2000, 0x1000)
    ensures Place(TwoRegions(kernelBytes), 0x2000, 0x1000) == None
  {
    var es := TwoRegions(kernelBytes);
    assert es == [Extent(0, 0), Extent(0x1000, 0x2000), Extent(0x4000, 0x1000),
                  Extent(KERNEL_TEXT_START, kernelBytes), Extent(VGA_TEXT_BUFFER_BASE, 0x1000),
                  Extent(KERNEL_PMM_START, 0x1000), Extent(KERNEL_PAGE_TBL_START, 0x6000)];
    assert LastNotAfter(es, 0x2000, 1);
    assert StopFrom(es, 0x2000, 1) == 1;
    assert StopFrom(es, 0x2000, 0) == 1;
  }

  // ------------------------------------------------------ automatic placement

  /** A gap strictly larger than length follows region k. */
  predicate GapAfter(es: seq<Extent>, k: nat, length: nat) {
    k + 1 < |es| && es[k].End() + length < es[k + 1].base
  }

  /** Region k is the lowest one followed by such a gap. */
  ghost predicate FirstGap(es: seq<Extent>, length: nat, k: nat) {
    GapAfter(es, k, length) && forall i :: 0 <= i < k ==> !GapAfter(es, i, length)
  }

  /** The search itself, from node k on. */
  function GapFrom(es: seq<Extent>, length: nat, k: nat): (n: Option<nat>)
    ensures n.Some? ==> GapAfter(es, n.value, length)
    decreases |es| - k
  {
    if k >= |es| then None
    else if GapAfter(es, k, length) then Some(k)
    else GapFrom(es, length, k + 1)
  }

  lemma {:induction false} GapFromFirst(es: seq<Extent>, length: nat, k: nat)
    requires forall i :: 0 <= i < k ==> !GapAfter(es, i, length)
    ensures GapFrom(es, length, k).Some? ==> FirstGap(es, length, GapFrom(es, length, k).value)
    decreases |es| - k
  {
    if k < |es| && !GapAfter(es, k, length) {
      GapFromFirst(es, length, k + 1);
    }
  }

  /** Behind which node `vmm_alloc` puts a region, and where; None is NULL. */
  function Place(es: seq<Extent>, start: nat, length: nat): (r: Option<(nat, nat)>)
    requires es != []
    ensures r.Some? ==> r.value.0 < |es| && (start != 0 ==> r.value.1 == start)
  {
    if start == 0 then
      match GapFrom(es, length, 0)
      case None => None
      case Some(k) => Some((k, es[k].End()))
    else
      var k := StopFrom(es, start, 0);
      if Rejected(es, k, start, length) then None else Some((k, start))
  }

  ghost predicate NoGap(es: seq<Extent>, length: nat) {
    forall k: nat :: !GapAfter(es, k, length)
  }

  /** How the search of `vmm_alloc` ends, at node k. For an explicit address r is
      None when the test rejects it; for automatic placement r is None when no gap
      is found, where the code goes on with a variable it has not set. */
  ghost predicate Searched(es: seq<Extent>, start: nat, length: nat, k: nat, r: Option<nat>) {
    if start == 0 then
      if r == None then NoGap(es, length) else FirstGap(es, length, k) && r == Some(es[k].End())
    else
      StopsAt(es, start, k) && r == if Rejected(es, k, start, length) then None else Some(start)
  }

  /** The node where the search stops is the only one of its kind. */
  lemma PlaceIs(es: seq<Extent>, start: nat, length: nat, k: nat, r: Option<nat>)
    requires es != [] && Searched(es, start, length, k, r)
    ensures Place(es, start, length) == if r == None then None else Some((k, r.value))
  {
    hide StopFrom, GapFrom;
    if start != 0 {
      StopFromStops(es, start, 0);
    } else if r.Some? {
      GapFromFirst(es, length, 0);
      GapFound(es, length, 0, k);
    }
  }

  lemma {:induction false} GapFound(es: seq<Extent>, length: nat, i: nat, k: nat)
    requires i <= k && GapAfter(es, k, length)
    ensures GapFrom(es, length, i).Some?
    decreases k - i
  {
    if i < k && !GapAfter(es, i, length) {
      GapFound(es, length, i + 1, k);
    }
  }

  /** Automatic placement in the first gap keeps the list disjoint. */
  lemma AutomaticDisjoint(es: seq<Extent>, length: nat, k: nat)
    requires GapAfter(es, k, length)
    ensures Sorted(es) ==> Sorted(Insert(es, k + 1, Extent(es[k].End(), length)))
    ensures Disjoint(es) ==> Disjoint(Insert(es, k + 1, Extent(es[k].End(), length)))
  {
    var x := Extent(es[k].End(), length);
    var es' := Insert(es, k + 1, x);
    InsertElements(es, k + 1, x);
    forall i, j | 0 <= i < j < |es'|
      ensures Sorted(es) ==> es'[i].base <= es'[j].base
      ensures Disjoint(es) ==> es'[i].End() <= es'[j].base
    {
      var a := if i <= k then i else i - 1;
      var b := if j <= k then j else j - 1;
      assert Sorted(es) && a < b ==> es[a].base <= es[b].base;
      assert Disjoint(es) && a < b ==> es[a].End() <= es[b].base;
      if i == k + 1 && k + 1 < b {
        assert Sorted(es) ==> es[k + 1].base <= es[b].base;
        assert Disjoint(es) ==> es[k + 1].End() <= es[b].base;
      }
    }
  }

  /** The address found is 0, which the caller takes for NULL, exactly when the
      request is smaller than the gap behind the head, in a space whose other
      regions are not empty. */
  lemma AutomaticNull(es: seq<Extent>, length: nat, k: nat)
    requires es != [] && es[0] == Extent(0, 0) && FirstGap(es, length, k)
    requires forall i :: 0 < i < |es| ==> es[i].length > 0
    ensures |es| >= 2 && (es[k].End() == 0 <==> length < es[1].base)
  {
    if length < es[1].base {
      assert GapAfter(es, 0, length);
    }
  }

  // --------------------------------------------------- lengthening and freeing

  /** Lengthening region k, which the code does when this stays clear of the
      next region, keeps order and disjointness. */
  lemma LengthenKeeps(es: seq<Extent>, k: nat, inc: nat)
    requires k < |es| && (k + 1 < |es| ==> es[k].End() + inc <= es[k + 1].base)
    ensures var es' := es[k := Extent(es[k].base, es[k].length + inc)];
      && (Sorted(es) ==> Sorted(es')) && (Disjoint(es) ==> Disjoint(es'))
  {
    var es' := es[k := Extent(es[k].base, es[k].length + inc)];
    forall i, j | 0 <= i < j < |es|
      ensures Disjoint(es) ==> es'[i].End() <= es'[j].base
    {
      if i == k && k + 1 < j {
        assert Disjoint(es) ==> es[k + 1].End() <= es[j].base;
      }
    }
  }

  /** Region k stays clear of the next when it grows by inc bytes. */
  predicate Fits(es: seq<Extent>, k: nat, inc: nat) {
    k < |es| && (k + 1 < |es| ==> es[k].End() + inc <= es[k + 1].base)
  }

  function Grown(es: seq<Extent>, k: nat, inc: nat): seq<Extent>
    requires k < |es|
  {
    es[k := Extent(es[k].base, es[k].length + inc)]
  }

  /** The list after region k has grown, if it may. */
  function Longer(es: seq<Extent>, k: nat, inc: nat): seq<Extent> {
    if Fits(es, k, inc) then Grown(es, k, inc) else es
  }

  /** A region of a disjoint list may grow exactly when it then overlaps nothing;
      the last one always may. */
  lemma GrowsIff(es: seq<Extent>, k: nat, inc: nat)
    requires Disjoint(es) && k < |es|
    ensures Fits(es, k, inc) <==> Disjoint(Grown(es, k, inc))
    ensures k + 1 == |es| ==> Fits(es, k, inc)
  {
    if Fits(es, k, inc) {
      LengthenKeeps(es, k, inc);
    } else {
      var l := Grown(es, k, inc);
      assert l[k].End() > l[k + 1].base;
    }
  }

  /** Growing up to the next region is growing within the bound. */
  lemma GrowsToNext(kernelBytes: nat)
    requires kernelBytes <= VGA_TEXT_BUFFER_BASE - KERNEL_TEXT_START
    ensures var es := TwoRegions(kernelBytes);
      && Disjoint(es) && Fits(es, 1, 0x1000) && !Fits(es, 1, 0x1001)
      && Longer(es, 1, 0x1000)[1] == Extent(0x1000, 0x3000) && Disjoint(Longer(es, 1, 0x1000))
  {
    OverlapAccepted(kernelBytes);
    GrowsIff(TwoRegions(kernelBytes), 1, 0x1000);
  }

  lemma DeleteKeeps(es: seq<Extent>, k: nat)
    requires k < |es|
    ensures Sorted(es) ==> Sorted(Without(es, k))
    ensures Disjoint(es) ==> Disjoint(Without(es, k))
  {
    var es' := Without(es, k);
    assert forall n :: 0 <= n < |es'| ==> es'[n] == es[if n < k then n else n + 1];
  }

  // ------------------------------------------------------------ bump allocators

  /** No extent reaches into [lo, hi). */
  ghost predicate Clear(es: seq<Extent>, lo: nat, hi: nat) {
    forall i :: 0 <= i < |es| ==> es[i].End() <= lo || hi <= es[i].base
  }

  /** A region put into a clear zone of the tail keeps the list of a space with
      private front p disjoint. */
  lemma TailInsertDisjoint(p: seq<Extent>, t: seq<Extent>, lo: nat, hi: nat, m: nat, x: Extent)
    requires Disjoint(p + t) && Clear(t, lo, hi) && t != [] && t[0].base <= lo
    requires lo <= x.base && x.End() <= hi && x.length > 0
    requires m < |t| && t[m].base <= x.base && (m + 1 < |t| ==> x.base < t[m + 1].base)
    ensures Disjoint(p + Insert(t, m + 1, x))
  {
    hide Disjoint, Clear, Insert;
    var es := p + t;
    var k := |p| + m;
    forall i | 0 <= i < |es|
      ensures es[i].base <= x.base <==> i <= k
      ensures es[i].End() <= x.base || (x.base < es[i].base && x.End() <= es[i].base)
    {
      ZoneElement(p, t, lo, hi, m, x, i);
    }
    InsertElements(es, k + 1, x);
    InGapDisjoint(es, Insert(es, k + 1, x), x.base, x.length, k);
    InsertBack(p, t, m + 1, x);
  }

  lemma ZoneElement(p: seq<Extent>, t: seq<Extent>, lo: nat, hi: nat, m: nat, x: Extent, i: nat)
    requires Disjoint(p + t) && Clear(t, lo, hi) && t != [] && t[0].base <= lo
    requires lo <= x.base && x.End() <= hi && x.length > 0
    requires m < |t| && t[m].base <= x.base && (m + 1 < |t| ==> x.base < t[m + 1].base) && i < |p + t|
    ensures var e := (p + t)[i];
      && (e.base <= x.base <==> i <= |p| + m)
      && (e.End() <= x.base || x.End() <= e.base)
  {
    var es := p + t;
    assert es[|p|] == t[0] && es[|p| + m] == t[m];
    if i < |p| {
      assert es[i].End() <= es[|p|].base;
    } else {
      assert es[i] == t[i - |p|];
      DisjointSorted(es);
      if i < |p| + m {
        assert es[i].base <= es[|p| + m].base;
      } else if |p| + m + 1 <= i {
        assert es[|p| + m + 1] == t[m + 1];
        assert |p| + m + 1 < i ==> es[|p| + m + 1].base <= es[i].base;
      }
    }
  }

  /** A request in a clear zone is never rejected, and the search for its place
      stops in the tail. */
  lemma ZoneStops(p: seq<Extent>, t: seq<Extent>, lo: nat, hi: nat, start: nat, length: nat, k: nat)
    requires Disjoint(p + t) && Clear(t, lo, hi) && p != [] && p[0].base == 0 && t != [] && t[0].base <= lo
    requires lo <= start && start + length <= hi && length > 0 && StopsAt(p + t, start, k)
    ensures !Rejected(p + t, k, start, length)
    ensures |p| <= k < |p| + |t|
    ensures var m := k - |p|; t[m].base <= start && (m + 1 < |t| ==> start < t[m + 1].base)
  {
    var es := p + t;
    DisjointSorted(es);
    StopIsLast(es, start, k);
    assert es[|p|] == t[0];
    var m := k - |p|;
    assert es[k].base <= start;
    assert k + 1 < |es| ==> es[k + 1].base > start;
    assert es[k] == t[m];
    assert hi <= t[m].base || t[m].End() <= lo;
  }

  lemma ClearInsert(t: seq<Extent>, m: nat, x: Extent, lo: nat, hi: nat)
    requires m <= |t| && Clear(t, lo, hi) && (x.End() <= lo || hi <= x.base)
    ensures Clear(Insert(t, m, x), lo, hi)
  {
    InsertElements(t, m, x);
    var es := Insert(t, m, x);
    forall i | 0 <= i < |es|
      ensures es[i].End() <= lo || hi <= es[i].base
    {
      assert es[i] == InsertedAt(t, m, x, i);
    }
  }

  lemma ClearWithout(t: seq<Extent>, m: nat, lo: nat, hi: nat)
    requires m < |t| && Clear(t, lo, hi)
    ensures Clear(Without(t, m), lo, hi)
  {
    var es := Without(t, m);
    forall i | 0 <= i < |es|
      ensures es[i].End() <= lo || hi <= es[i].base
    {
      assert es[i] == t[if i < m then i else i + 1];
    }
  }

  lemma TailDisjoint(p: seq<Extent>, t: seq<Extent>)
    requires Disjoint(p + t)
    ensures Disjoint(t)
  {
    forall i, j | 0 <= i < j < |t|
      ensures t[i].End() <= t[j].base
    {
      assert (p + t)[|p| + i] == t[i] && (p + t)[|p| + j] == t[j];
    }
  }

  /** A new front fits every tail that some front fits. */
  lemma NewFront(p: seq<Extent>, t: seq<Extent>)
    requires Disjoint(p + t)
    ensures Disjoint([Extent(0, 0)] + t)
  {
    TailDisjoint(p, t);
    var b := [Extent(0, 0)] + t;
    forall i, j | 0 <= i < j < |b|
      ensures b[i].End() <= b[j].base
    {
      assert b[j] == t[j - 1];
      assert i > 0 ==> b[i] == t[i - 1];
    }
  }

  lemma ClearSmaller(t: seq<Extent>, lo: nat, hi: nat, lo': nat, hi': nat)
    requires Clear(t, lo, hi) && lo <= lo' && hi' <= hi
    ensures Clear(t, lo', hi')
  {
  }

  /** The n-th kernel stack. */
  function StackBase(n: nat): int {
    KERNEL_STACK_START - n * (KERNEL_STACK_SIZE + 0x1000)
  }

  /** Stacks stay above the first heap page for exactly 84 calls, MMIO ranges
      below the bitmap for exactly 0x27 pages. */
  lemma BumpLimits(n: nat)
    ensures KERNEL_HEAP_START + PAGE_SIZE <= StackBase(n) <==> n <= 84
    ensures VGA_TEXT_BUFFER_BASE + PAGE_SIZE + n * PAGE_SIZE <= KERNEL_PMM_START <==> n <= 0x27
  {
  }
}
