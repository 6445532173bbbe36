/** What holds over every run of `kmalloc` and `kfree` that does not grow the heap
    and in which no header of a rest whose size wrapped falls inside the heap; a
    call of that kind leaves no tiling (KernelHeap.WrapBreaks). */
module HeapRuns {
  import opened KernelHeap

  /** The blocks, and for each live pointer the size that was requested. */
  datatype HeapState = HeapState(bs: seq<Block>, live: map<nat, nat>)

  /** A call, with the blocks it worked on: first fit i, merged up to j. */
  datatype Call = Malloc(size: nat, i: nat, j: nat) | Free(i: nat)

  ghost function Ptr(bs: seq<Block>, i: nat): nat
    requires i <= |bs|
  {
    Offset(bs, i) + HEADER
  }

  ghost predicate Step(s: HeapState, s': HeapState, c: Call) {
    match c
    case Malloc(size, i, j) =>
      && FirstFit(s.bs, size, i) && StopsAt(s.bs, size, i, j) && !Breaks(s.bs, size, i, j)
      && s'.bs == Allocate(s.bs, size, i, j) && s'.live == s.live[Ptr(s.bs, i) := size]
    case Free(i) =>
      && i < |s.bs| && Ptr(s.bs, i) in s.live
      && s'.bs == s.bs[i := s.bs[i].(used := false)] && s'.live == s.live - {Ptr(s.bs, i)}
  }

  ghost predicate IsRun(bytes: nat, ss: seq<HeapState>, cs: seq<Call>) {
    && HEADER <= bytes && |ss| == |cs| + 1
    && ss[0] == HeapState([Block(false, bytes - HEADER)], map[])
    && forall n :: 0 <= n < |cs| ==> Step(ss[n], ss[n + 1], cs[n])
  }

  lemma RunPrefix(bytes: nat, ss: seq<HeapState>, cs: seq<Call>)
    requires IsRun(bytes, ss, cs) && |cs| > 0
    ensures IsRun(bytes, ss[..|cs|], cs[..|cs| - 1])
    ensures Step(ss[|cs| - 1], ss[|cs|], cs[|cs| - 1])
  {
    forall n | 0 <= n < |cs| - 1
      ensures Step(ss[..|cs|][n], ss[..|cs|][n + 1], cs[..|cs| - 1][n])
    {
      assert Step(ss[n], ss[n + 1], cs[n]);
    }
  }

  // ----------------------------------------------------------------- tiling

  /** p is the payload address of a used block. */
  ghost predicate UsedAt(bs: seq<Block>, i: nat, p: nat) {
    i < |bs| && bs[i].used && Ptr(bs, i) == p
  }

  /** The blocks cover the heap, and the used ones are exactly the live ones. */
  ghost predicate Inv(s: HeapState, bytes: nat) {
    && s.bs != [] && Total(s.bs) == bytes
    && (forall i :: 0 <= i < |s.bs| && s.bs[i].used ==> Ptr(s.bs, i) in s.live)
    && (forall p :: p in s.live ==> exists i: nat :: UsedAt(s.bs, i, p))
  }

  lemma PtrInjective(bs: seq<Block>, i: nat, j: nat)
    requires i < |bs| && j < |bs| && Ptr(bs, i) == Ptr(bs, j)
    ensures i == j
  {
    if i < j {
      OffsetMonotone(bs, i, j);
    } else if j < i {
      OffsetMonotone(bs, j, i);
    }
  }

  /** Where block k of the heap lies after an allocation that splits. */
  ghost function Moved(i: nat, j: nat, k: nat): nat
    requires k <= i < j || i < j <= k
  {
    if k <= i then k else k - j + i + 2
  }

  lemma SplitPtr(bs: seq<Block>, size: nat, i: nat, j: nat, k: nat)
    requires i < j <= |bs| && Merged(bs, i, j) - HEADER > size && k < |bs| && (k <= i || j <= k)
    ensures var bs' := Allocate(bs, size, i, j);
      && Moved(i, j, k) < |bs'| && Ptr(bs', Moved(i, j, k)) == Ptr(bs, k)
      && (k != i ==> bs'[Moved(i, j, k)] == bs[k])
      && (k == i ==> bs'[i] == Block(true, size))
  {
    var bs' := Allocate(bs, size, i, j);
    if k <= i {
      assert bs'[..k] == bs[..k];
    } else {
      SplitOffset(bs, size, i, j, k);
    }
  }

  lemma SplitInv(s: HeapState, s': HeapState, bytes: nat, size: nat, i: nat, j: nat)
    requires Inv(s, bytes) && Step(s, s', Malloc(size, i, j)) && Merged(s.bs, i, j) - HEADER > size
    ensures Inv(s', bytes)
  {
    hide Total, Merged, FirstFit, Breaks, Offset;
    var bs, bs' := s.bs, s'.bs;
    AllocateTotal(bs, size, i, j);
    SplitShape(bs, size, i, j);
    forall k | 0 <= k < |bs'| && bs'[k].used
      ensures Ptr(bs', k) in s'.live
    {
      assert k != i + 1;
      SplitPtr(bs, size, i, j, if k <= i then k else k + j - i - 2);
    }
    forall p | p in s'.live
      ensures exists k: nat :: UsedAt(bs', k, p)
    {
      var k: nat := i;
      if p != Ptr(bs, i) {
        k :| UsedAt(bs, k, p);
      }
      SplitPtr(bs, size, i, j, k);
      assert UsedAt(bs', Moved(i, j, k), p);
    }
  }

  lemma SplitShape(bs: seq<Block>, size: nat, i: nat, j: nat)
    requires i < j <= |bs| && Merged(bs, i, j) - HEADER > size
    ensures var bs' := Allocate(bs, size, i, j);
      |bs'| == |bs| - (j - i) + 2 && !bs'[i + 1].used && bs'[i] == Block(true, size)
  {
  }

  lemma FlagInv(s: HeapState, s': HeapState, bytes: nat, i: nat, used: bool)
    requires Inv(s, bytes) && i < |s.bs|
    requires s'.bs == s.bs[i := s.bs[i].(used := used)]
    requires if used then Ptr(s.bs, i) in s'.live && s'.live.Keys == s.live.Keys + {Ptr(s.bs, i)}
             else s'.live == s.live - {Ptr(s.bs, i)}
    ensures Inv(s', bytes)
  {
    hide Total, Offset;
    UseTotal(s.bs, i, used);
    forall k | 0 <= k < |s'.bs|
      ensures Ptr(s'.bs, k) == Ptr(s.bs, k)
      ensures s'.bs[k].used ==> Ptr(s'.bs, k) in s'.live
    {
      FlagPtr(s.bs, i, used, k);
      if s'.bs[k].used && k != i && Ptr(s.bs, k) == Ptr(s.bs, i) {
        PtrInjective(s.bs, i, k);
      }
    }
    forall p | p in s'.live
      ensures exists k: nat :: UsedAt(s'.bs, k, p)
    {
      if p == Ptr(s.bs, i) {
        assert UsedAt(s'.bs, i, p);
      } else {
        var k: nat :| UsedAt(s.bs, k, p);
        assert UsedAt(s'.bs, k, p);
      }
    }
  }

  lemma FlagPtr(bs: seq<Block>, i: nat, used: bool, k: nat)
    requires i < |bs| && k < |bs|
    ensures Ptr(bs[i := bs[i].(used := used)], k) == Ptr(bs, k)
  {
    FlagOffset(bs, i, used, k);
  }

  lemma StepInv(s: HeapState, s': HeapState, bytes: nat, c: Call)
    requires Inv(s, bytes) && Step(s, s', c)
    ensures Inv(s', bytes)
  {
    hide Total, Offset, Inv, FirstFit, Breaks;
    match c
    case Malloc(size, i, j) =>
      if Merged(s.bs, i, j) - HEADER > size {
        SplitInv(s, s', bytes, size, i, j);
      } else {
        FlagInv(s, s', bytes, i, true);
      }
    case Free(i) =>
      FlagInv(s, s', bytes, i, false);
  }

  /** Every run keeps the headers tiling the heap exactly, so the sum of size
      plus header over all blocks is conserved, with one used block for each
      live pointer. */
  lemma {:induction false} RunTiles(bytes: nat, ss: seq<HeapState>, cs: seq<Call>)
    requires IsRun(bytes, ss, cs)
    ensures Inv(ss[|cs|], bytes)
    decreases |cs|
  {
    hide Step, Inv;
    if |cs| > 0 {
      RunPrefix(bytes, ss, cs);
      RunTiles(bytes, ss[..|cs|], cs[..|cs| - 1]);
      StepInv(ss[|cs| - 1], ss[|cs|], bytes, cs[|cs| - 1]);
    } else {
      StartInv(bytes);
    }
  }

  lemma StartInv(bytes: nat)
    requires HEADER <= bytes
    ensures Inv(HeapState([Block(false, bytes - HEADER)], map[]), bytes)
  {
    TotalOne(Block(false, bytes - HEADER));
  }

  // --------------------------------------------------- no lasting fragmentation

  lemma AllFree(bs: seq<Block>)
    requires bs != [] && forall k :: 0 <= k < |bs| ==> !bs[k].used
    ensures MaximalRun(bs, 0, |bs|) && Merged(bs, 0, |bs|) == Total(bs) - HEADER
  {
    assert bs[0..|bs|] == bs;
  }

  /** The merge from block 0 that first suffices. */
  lemma StopExists(bs: seq<Block>, size: nat, n: nat) returns (j: nat)
    requires 0 < n <= |bs| && (forall k :: 0 <= k < n ==> !bs[k].used) && Merged(bs, 0, n) >= size
    ensures StopsAt(bs, size, 0, j)
  {
    hide Merged;
    j := n;
    while j > 1 && Merged(bs, 0, j - 1) >= size
      invariant 0 < j <= n && Merged(bs, 0, j) >= size
    {
      j := j - 1;
    }
  }

  lemma StopUnique(bs: seq<Block>, size: nat, i: nat, j: nat, j': nat)
    requires StopsAt(bs, size, i, j) && StopsAt(bs, size, i, j')
    ensures j == j'
  {
    hide Merged;
    if j < j' {
      MergedMonotone(bs, i, j, j' - 1);
    } else if j' < j {
      MergedMonotone(bs, i, j', j - 1);
    }
  }

  ghost predicate Serves(s: HeapState, size: nat, i: nat) {
    exists s', j :: Step(s, s', Malloc(size, i, j))
  }

  /** After any run, once everything live has been freed, the first fit of every
      request that fits the empty heap is at heap_start + 5, and it is served
      there with the tiling kept, and nowhere else, exactly when it does not meet
      a first block smaller than a header with room left in the heap; every such
      request of five bytes or more is. */
  lemma RunRecovers(bytes: nat, ss: seq<HeapState>, cs: seq<Call>, size: nat)
    requires IsRun(bytes, ss, cs) && ss[|cs|].live == map[] && size <= bytes - HEADER
    ensures var s := ss[|cs|];
      && s.bs != [] && Ptr(s.bs, 0) == HEADER && FirstFit(s.bs, size, 0)
      && (Serves(s, size, 0) <==> !(size <= s.bs[0].size < HEADER && size + HEADER < bytes))
      && (size >= HEADER ==> Serves(s, size, 0))
      && forall i :: 0 < i ==> !Serves(s, size, i)
  {
    hide Merged, Total, Allocate;
    RunTiles(bytes, ss, cs);
    var s := ss[|cs|];
    var bs := s.bs;
    AllFree(bs);
    assert bs[..0] == [];
    assert Ptr(bs, 0) == HEADER by { EmptyTotal(); }
    var j := StopExists(bs, size, |bs|);
    MergedOne(bs, 0);
    StopIsFirst(bs, size, j);
    var s' := HeapState(Allocate(bs, size, 0, j), s.live[Ptr(bs, 0) := size]);
    if !Breaks(bs, size, 0, j) {
      assert Step(s, s', Malloc(size, 0, j));
    }
    if Serves(s, size, 0) {
      var t, k :| Step(s, t, Malloc(size, 0, k));
      StopUnique(bs, size, 0, j, k);
    }
  }

  lemma EmptyTotal()
    ensures Total([]) == 0
  {
  }

  /** The merge stops at once exactly when the first block suffices. */
  lemma StopIsFirst(bs: seq<Block>, size: nat, j: nat)
    requires StopsAt(bs, size, 0, j)
    ensures j == 1 <==> size <= bs[0].size
  {
    hide Merged;
    MergedOne(bs, 0);
    if j > 1 {
      MergedMonotone(bs, 0, 1, j - 1);
    }
  }

  // ------------------------------------------------------- disjoint payloads

  /** The path on which the size of a merged block is not updated: more than
      one block is needed and what is left is no larger than a header. */
  ghost predicate MergeWithoutSplit(bs: seq<Block>, size: nat, i: nat, j: nat)
    requires i < j <= |bs|
  {
    j > i + 1 && Merged(bs, i, j) - HEADER <= size
  }

  /** The block handed out holds the request exactly when the call does not
      merge without splitting. */
  lemma PayloadFits(bs: seq<Block>, size: nat, i: nat, j: nat)
    requires StopsAt(bs, size, i, j)
    ensures i < |Allocate(bs, size, i, j)|
    ensures Allocate(bs, size, i, j)[i].size >= size <==> !MergeWithoutSplit(bs, size, i, j)
  {
    MergedOne(bs, i);
    if j > i + 1 {
      MergedMonotone(bs, i, i + 1, j - 1);
    }
  }

  /** Every live request fits its block. */
  ghost predicate Fits(s: HeapState) {
    forall i :: 0 <= i < |s.bs| && s.bs[i].used ==>
      Ptr(s.bs, i) in s.live && s.live[Ptr(s.bs, i)] <= s.bs[i].size
  }

  ghost predicate Sound(s: HeapState, c: Call) {
    c.Malloc? && c.i < c.j <= |s.bs| ==> !MergeWithoutSplit(s.bs, c.size, c.i, c.j)
  }

  lemma SplitFits(s: HeapState, s': HeapState, bytes: nat, size: nat, i: nat, j: nat, k: nat)
    requires Inv(s, bytes) && Fits(s) && Step(s, s', Malloc(size, i, j))
    requires Merged(s.bs, i, j) - HEADER > size && k < |s'.bs| && s'.bs[k].used
    ensures Ptr(s'.bs, k) in s'.live && s'.live[Ptr(s'.bs, k)] <= s'.bs[k].size
  {
    hide Total, Merged, FirstFit, Breaks, Offset;
    SplitShape(s.bs, size, i, j);
    assert k != i + 1;
    var n := if k <= i then k else k + j - i - 2;
    SplitPtr(s.bs, size, i, j, n);
    if n != i && Ptr(s.bs, n) == Ptr(s.bs, i) {
      PtrInjective(s.bs, n, i);
    }
  }

  lemma StepFits(s: HeapState, s': HeapState, bytes: nat, c: Call)
    requires Inv(s, bytes) && Fits(s) && Step(s, s', c) && Sound(s, c)
    ensures Fits(s')
  {
    hide Total, Merged, FirstFit, Breaks, Offset;
    forall k | 0 <= k < |s'.bs| && s'.bs[k].used
      ensures Ptr(s'.bs, k) in s'.live && s'.live[Ptr(s'.bs, k)] <= s'.bs[k].size
    {
      match c
      case Malloc(size, i, j) =>
        if Merged(s.bs, i, j) - HEADER > size {
          SplitFits(s, s', bytes, size, i, j, k);
        } else {
          PayloadFits(s.bs, size, i, j);
          FlagPtr(s.bs, i, true, k);
          if k != i && Ptr(s.bs, k) == Ptr(s.bs, i) {
            PtrInjective(s.bs, k, i);
          }
        }
      case Free(i) =>
        FlagPtr(s.bs, i, false, k);
        if Ptr(s.bs, k) == Ptr(s.bs, i) {
          PtrInjective(s.bs, k, i);
        }
    }
  }

  lemma {:induction false} RunFits(bytes: nat, ss: seq<HeapState>, cs: seq<Call>)
    requires IsRun(bytes, ss, cs) && forall n :: 0 <= n < |cs| ==> Sound(ss[n], cs[n])
    ensures Fits(ss[|cs|])
    decreases |cs|
  {
    hide Step, Inv, Sound, Fits;
    if |cs| > 0 {
      RunPrefix(bytes, ss, cs);
      RunTiles(bytes, ss[..|cs|], cs[..|cs| - 1]);
      RunFits(bytes, ss[..|cs|], cs[..|cs| - 1]);
      StepFits(ss[|cs| - 1], ss[|cs|], bytes, cs[|cs| - 1]);
    } else {
      StartFits(bytes);
    }
  }

  lemma StartFits(bytes: nat)
    requires HEADER <= bytes
    ensures Fits(HeapState([Block(false, bytes - HEADER)], map[]))
  {
  }

  /** Payload [p, p + request) of a live pointer lies inside the heap. */
  ghost predicate Inside(s: HeapState, bytes: nat, p: nat)
    requires p in s.live
  {
    HEADER <= p && p + s.live[p] <= bytes
  }

  ghost predicate Apart(s: HeapState, p: nat, q: nat)
    requires p in s.live && q in s.live
  {
    p + s.live[p] + HEADER <= q || q + s.live[q] + HEADER <= p
  }

  /** Over every run that never merges without splitting, live payloads lie
      inside the heap and are pairwise disjoint, a header apart. */
  lemma RunDisjoint(bytes: nat, ss: seq<HeapState>, cs: seq<Call>, p: nat, q: nat)
    requires IsRun(bytes, ss, cs) && forall n :: 0 <= n < |cs| ==> Sound(ss[n], cs[n])
    requires p in ss[|cs|].live && q in ss[|cs|].live && p != q
    ensures Inside(ss[|cs|], bytes, p) && Apart(ss[|cs|], p, q)
  {
    var s := ss[|cs|];
    RunTiles(bytes, ss, cs);
    RunFits(bytes, ss, cs);
    var i: nat :| UsedAt(s.bs, i, p);
    var j: nat :| UsedAt(s.bs, j, q);
    assert s.bs[..|s.bs|] == s.bs;
    OffsetMonotone(s.bs, i, |s.bs|);
    if i < j {
      OffsetMonotone(s.bs, i, j);
    } else if j < i {
      OffsetMonotone(s.bs, j, i);
    }
  }

  // ------------------------------------------------ what the defect leads to

  ghost function Four(a: bool, b: bool, c: bool): seq<Block> {
    [Block(a, 8), Block(b, 8), Block(c, 8), Block(false, 4052)]
  }

  lemma FourOffsets(a: bool, b: bool, c: bool)
    ensures var bs := Four(a, b, c);
      && Offset(bs, 0) == 0 && Offset(bs, 1) == 13 && Offset(bs, 2) == 26 && Offset(bs, 3) == 39
      && Merged(bs, 0, 2) == 21 && Merged(bs, 1, 2) == 8
  {
    var bs := Four(a, b, c);
    assert bs[..0] == [];
    OffsetStep(bs, 0); OffsetStep(bs, 1); OffsetStep(bs, 2);
    MergedOffsets(bs, 0, 2); MergedOffsets(bs, 1, 2);
  }

  /** Blocks of eight bytes filling the heap from the front. */
  ghost function Filled(k: nat): seq<Block>
    requires k <= 3
  {
    seq(k, _ => Block(true, 8)) + [Block(false, 4091 - 13 * k)]
  }

  lemma FilledOffsets(k: nat)
    requires k <= 3
    ensures Offset(Filled(k), k) == 13 * k
  {
    var bs := Filled(k);
    assert bs[..0] == [];
    if k >= 1 { OffsetStep(bs, 0); }
    if k >= 2 { OffsetStep(bs, 1); }
    if k >= 3 { OffsetStep(bs, 2); }
  }

  lemma FilledFit(k: nat)
    requires k < 3
    ensures FirstFit(Filled(k), 8, k) && StopsAt(Filled(k), 8, k, k + 1) && !Breaks(Filled(k), 8, k, k + 1)
  {
    hide Merged, Total, NoFitBefore, FirstFit;
    var bs := Filled(k);
    MergedOne(bs, k);
    NoFitAtStart(bs, 8);
    if k >= 1 { NoFitSkip(bs, 8, 0); }
    if k >= 2 { NoFitSkip(bs, 8, 1); }
    StopIsFirstFit(bs, 8, k, k + 1);
  }

  lemma FilledNext(k: nat)
    requires k < 3
    ensures Allocate(Filled(k), 8, k, k + 1) == Filled(k + 1)
  {
    hide Merged, Total;
    MergedOne(Filled(k), k);
  }

  lemma FillStep(k: nat, live: map<nat, nat>)
    requires k < 3
    ensures Step(HeapState(Filled(k), live), HeapState(Filled(k + 1), live[13 * k + 5 := 8]), Malloc(8, k, k + 1))
  {
    hide FirstFit, StopsAt, Breaks, Allocate, Offset;
    FilledFit(k);
    FilledNext(k);
    FilledOffsets(k);
  }

  lemma DefectFrees()
    ensures Step(HeapState(Four(true, true, true), map[5 := 8, 18 := 8, 31 := 8]),
                 HeapState(Four(false, true, true), map[18 := 8, 31 := 8]), Free(0))
    ensures Step(HeapState(Four(false, true, true), map[18 := 8, 31 := 8]),
                 HeapState(Four(false, false, true), map[31 := 8]), Free(1))
  {
    hide Offset;
    FourOffsets(true, true, true);
    FourOffsets(false, true, true);
  }

  lemma DefectFirst()
    ensures Step(HeapState(Four(false, false, true), map[31 := 8]),
                 HeapState(Four(true, false, true), map[31 := 8, 5 := 18]), Malloc(18, 0, 2))
  {
    FourOffsets(false, false, true);
    var bs := Four(false, false, true);
    MergedOne(bs, 0);
    assert MaximalRun(bs, 0, 2);
    assert Allocate(bs, 18, 0, 2) == Four(true, false, true);
  }

  lemma DefectSecond()
    ensures Step(HeapState(Four(true, false, true), map[31 := 8, 5 := 18]),
                 HeapState(Four(true, true, true), map[31 := 8, 5 := 18, 18 := 8]), Malloc(8, 1, 2))
  {
    FourOffsets(true, false, true);
    var bs := Four(true, false, true);
    assert MaximalRun(bs, 1, 2);
    assert Allocate(bs, 8, 1, 2) == Four(true, true, true);
  }

  /** The defect is reached: on the 4096-byte heap, after three requests for
      eight bytes and freeing the first two, requests for 18 and for 8 bytes
      are given overlapping payloads. */
  lemma DefectOverlaps(ss: seq<HeapState>, cs: seq<Call>)
    requires ss == [
      HeapState(Filled(0), map[]),
      HeapState(Filled(1), map[5 := 8]),
      HeapState(Filled(2), map[5 := 8, 18 := 8]),
      HeapState(Filled(3), map[5 := 8, 18 := 8, 31 := 8]),
      HeapState(Four(false, true, true), map[18 := 8, 31 := 8]),
      HeapState(Four(false, false, true), map[31 := 8]),
      HeapState(Four(true, false, true), map[31 := 8, 5 := 18]),
      HeapState(Four(true, true, true), map[31 := 8, 5 := 18, 18 := 8])]
    requires cs == [Malloc(8, 0, 1), Malloc(8, 1, 2), Malloc(8, 2, 3), Free(0), Free(1),
                    Malloc(18, 0, 2), Malloc(8, 1, 2)]
    ensures IsRun(4096, ss, cs) && !Apart(ss[7], 5, 18)
  {
    hide Step, Filled;
    FilledEnds();
    FillStep(0, ss[0].live);
    FillStep(1, ss[1].live);
    FillStep(2, ss[2].live);
    DefectFrees();
    DefectFirst();
    DefectSecond();
    assert ss[1].live == ss[0].live[5 := 8];
    assert ss[2].live == ss[1].live[18 := 8];
    assert ss[3].live == ss[2].live[31 := 8];
  }

  lemma FilledEnds()
    ensures Filled(0) == [Block(false, 4091)] && Filled(3) == Four(true, true, true)
  {
  }

  /** The wrap is reached too: on the 4096-byte heap one request for 4085 bytes
      leaves a free block of one byte, the last one. A request for one byte wraps
      and keeps the tiling, a request for none wraps and breaks it. */
  lemma WrapReached(ss: seq<HeapState>, cs: seq<Call>)
    requires ss == [HeapState([Block(false, 4091)], map[]),
                    HeapState([Block(true, 4085), Block(false, 1)], map[5 := 4085])]
    requires cs == [Malloc(4085, 0, 1)]
    ensures IsRun(4096, ss, cs)
    ensures forall size :: 0 <= size <= 1 ==>
      && FirstFit(ss[1].bs, size, 1) && StopsAt(ss[1].bs, size, 1, 2) && Wraps(ss[1].bs, 1, 2)
      && (Breaks(ss[1].bs, size, 1, 2) <==> size == 0)
  {
    hide Step, Wraps, FirstFit, StopsAt, Breaks;
    var a, b := ss[0].bs, ss[1].bs;
    WrapStep();
    assert Step(ss[0], ss[1], cs[0]);
    forall size | 0 <= size <= 1
      ensures FirstFit(b, size, 1) && StopsAt(b, size, 1, 2) && Wraps(b, 1, 2)
      ensures Breaks(b, size, 1, 2) <==> size == 0
    {
      WrapFit(size);
    }
  }

  lemma WrapStep()
    ensures Step(HeapState([Block(false, 4091)], map[]),
                 HeapState([Block(true, 4085), Block(false, 1)], map[5 := 4085]), Malloc(4085, 0, 1))
  {
    hide Merged, Total, NoFitBefore, FirstFit;
    var a, b := [Block(false, 4091)], [Block(true, 4085), Block(false, 1)];
    MergedOne(a, 0);
    NoFitAtStart(a, 4085);
    StopIsFirstFit(a, 4085, 0, 1);
    assert a[..0] == [];
    assert Allocate(a, 4085, 0, 1) == b;
  }

  lemma WrapFit(size: nat)
    requires size <= 1
    ensures var b := [Block(true, 4085), Block(false, 1)];
      FirstFit(b, size, 1) && StopsAt(b, size, 1, 2) && Wraps(b, 1, 2) && (Breaks(b, size, 1, 2) <==> size == 0)
  {
    hide Merged, Total, NoFitBefore, FirstFit;
    var b := [Block(true, 4085), Block(false, 1)];
    MergedOne(b, 1);
    OffsetStep(b, 0);
    NoFitAtStart(b, size);
    NoFitSkip(b, size, 0);
    StopIsFirstFit(b, size, 1, 2);
    TotalTwo(b[0], b[1]);
    assert b == [b[0], b[1]];
    assert Offset(b, 1) == 4090 && Total(b) == 4096;
  }

  /** The blocks of the next run: one byte, eight bytes, the rest. */
  ghost function Three(used: bool): seq<Block> {
    [Block(used, 1), Block(true, 8), Block(false, 4072)]
  }

  lemma ThreeOffsets(used: bool)
    ensures var bs := Three(used);
      Offset(bs, 0) == 0 && Offset(bs, 1) == 6 && Offset(bs, 2) == 19 && Total(bs) == 4096
  {
    var bs := Three(used);
    assert bs[..0] == [];
    OffsetStep(bs, 0);
    OffsetStep(bs, 1);
    OffsetStep(bs, 2);
    assert bs[..3] == bs;
  }

  lemma BreakSteps()
    ensures Step(HeapState([Block(false, 4091)], map[]),
                 HeapState([Block(true, 1), Block(false, 4085)], map[5 := 1]), Malloc(1, 0, 1))
    ensures Step(HeapState([Block(true, 1), Block(false, 4085)], map[5 := 1]),
                 HeapState(Three(true), map[5 := 1, 11 := 8]), Malloc(8, 1, 2))
    ensures Step(HeapState(Three(true), map[5 := 1, 11 := 8]), HeapState(Three(false), map[11 := 8]), Free(0))
  {
    hide Merged, Total, NoFitBefore, FirstFit;
    var a, b := [Block(false, 4091)], [Block(true, 1), Block(false, 4085)];
    MergedOne(a, 0);
    NoFitAtStart(a, 1);
    StopIsFirstFit(a, 1, 0, 1);
    assert Allocate(a, 1, 0, 1) == b;
    MergedOne(b, 1);
    OffsetStep(b, 0);
    NoFitAtStart(b, 8);
    NoFitSkip(b, 8, 0);
    StopIsFirstFit(b, 8, 1, 2);
    assert Allocate(b, 8, 1, 2) == Three(true);
    ThreeOffsets(true);
  }

  /** A run that ends in a broken heap: requests for one and for eight bytes, the
      first of them freed. The next request for one byte writes the header of its
      rest over the header of the live block of eight bytes, and no blocks tile
      the heap any more. */
  lemma BreakReached(ss: seq<HeapState>, cs: seq<Call>, m: seq<Block>, m': seq<Block>)
    requires ss == [HeapState([Block(false, 4091)], map[]),
                    HeapState([Block(true, 1), Block(false, 4085)], map[5 := 1]),
                    HeapState(Three(true), map[5 := 1, 11 := 8]),
                    HeapState(Three(false), map[11 := 8])]
    requires cs == [Malloc(1, 0, 1), Malloc(8, 1, 2), Free(0)]
    requires Tiles(m, ss[3].bs) && Overwritten(m, m', 1, 1, 0)
    ensures IsRun(4096, ss, cs)
    ensures FirstFit(ss[3].bs, 1, 0) && StopsAt(ss[3].bs, 1, 0, 1) && Breaks(ss[3].bs, 1, 0, 1)
    ensures Ptr(ss[3].bs, 1) in ss[3].live && !m'[Offset(ss[3].bs, 1)].used
    ensures !exists bs :: Tiles(m', bs)
  {
    hide Step, Merged, Total, NoFitBefore, FirstFit, Tiles;
    BreakSteps();
    var bs := ss[3].bs;
    ThreeOffsets(false);
    MergedOne(bs, 0);
    NoFitAtStart(bs, 1);
    StopIsFirstFit(bs, 1, 0, 1);
    TilesTotal(m, bs);
    WrapBreaks(m, m', bs, 1, 0);
  }
}
