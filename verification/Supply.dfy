/** What the page tables take from the other parts: frames from the bitmap of
    `pmm.c`, and virtual addresses of tables from the hashmap. */
module Supply {
  import opened Common
  import opened Address
  import opened TableForest
  import opened PageTables
  import opened AddressSpaces
  import opened Boot
  import Pmm
  import VmmHashmap

  // ------------------------------------------------------------------- frames

  /** The frames that a run of the bitmap hands out, in order. */
  ghost function Handed(es: seq<Pmm.Event>): seq<Frame> {
    if es == [] then []
    else
      var init := Handed(es[..|es| - 1]);
      match es[|es| - 1]
      case Alloc(i, j) => init + [Pmm.ToPaddr(j, i)]
      case Reserve(_, _) => init
  }

  /** Frame 0 and the boot tables are marked from the start. */
  ghost predicate BootMarked(ws: seq<Pmm.Word>, phys: Frame) {
    forall y, x :: 0 <= y < |ws| && 0 <= x < 32 && (Pmm.ToPaddr(x, y) == 0 || IsBoot(phys, Pmm.ToPaddr(x, y))) ==> ws[y][x]
  }

  lemma {:induction false} HandedBy(wss: seq<seq<Pmm.Word>>, es: seq<Pmm.Event>, n: nat) returns (at: seq<nat>)
    requires Pmm.IsRun(wss, es) && n <= |es|
    ensures |at| == |Handed(es[..n])|
    ensures forall k :: 0 <= k < |at| ==> at[k] < n && es[at[k]].Alloc? && Handed(es[..n])[k] == Pmm.ToPaddr(es[at[k]].j, es[at[k]].i)
    ensures forall k, l :: 0 <= k < l < |at| ==> at[k] < at[l]
  {
    if n == 0 {
      at := [];
    } else {
      at := HandedBy(wss, es, n - 1);
      assert es[..n][..n - 1] == es[..n - 1] && es[..n][n - 1] == es[n - 1];
      if es[n - 1].Alloc? {
        at := at + [n - 1];
      }
    }
  }

  /** Over every run of a bitmap below word 0x8000 in which frame 0 and the boot
      tables are marked, the frames handed out are what the page tables require:
      page aligned, all different, and none of them a boot table. */
  lemma RunIsSpare(wss: seq<seq<Pmm.Word>>, es: seq<Pmm.Event>, phys: Frame)
    requires Pmm.IsRun(wss, es) && |wss[0]| <= 0x8000 && BootMarked(wss[0], phys)
    ensures Spare(phys, Handed(es))
  {
    hide Pmm.IsRun, Handed, IsBoot;
    var at := HandedBy(wss, es, |es|);
    assert es[..|es|] == es;
    var fs := Handed(es);
    forall k | 0 <= k < |fs|
      ensures fs[k] != 0 && fs[k] % 0x1000 == 0 && fs[k] < 0x1_0000_0000 && !IsBoot(phys, fs[k])
    {
      HandedFrame(wss, es, phys, at[k]);
    }
    forall k, l | 0 <= k < l < |fs|
      ensures fs[k] != fs[l]
    {
      HandedFrame(wss, es, phys, at[k]);
      HandedFrame(wss, es, phys, at[l]);
      Pmm.RunNeverRepeats(wss, es, at[k], at[l]);
    }
    FewFrames(fs);
  }

  /** And the marks are needed: they are there exactly when every run of the
      bitmap hands out such frames only. */
  lemma SpareIff(ws: seq<Pmm.Word>, phys: Frame)
    requires Pmm.Uniform(ws) && |ws| <= 0x8000
    ensures BootMarked(ws, phys) <==>
      forall wss, es :: Pmm.IsRun(wss, es) && wss[0] == ws ==> Spare(phys, Handed(es))
  {
    hide Pmm.Uniform, Handed, IsBoot, Pmm.ToPaddr;
    if BootMarked(ws, phys) {
      forall wss, es | Pmm.IsRun(wss, es) && wss[0] == ws
        ensures Spare(phys, Handed(es))
      {
        RunIsSpare(wss, es, phys);
      }
    } else {
      var y, x :| 0 <= y < |ws| && 0 <= x < 32 && (Pmm.ToPaddr(x, y) == 0 || IsBoot(phys, Pmm.ToPaddr(x, y))) && !ws[y][x];
      var wss, es := Pmm.HandsOut(ws, y, x, 0);
      LastHanded(es);
      assert !Spare(phys, Handed(es));
    }
  }

  lemma LastHanded(es: seq<Pmm.Event>)
    requires es != [] && es[|es| - 1].Alloc?
    ensures Handed(es) != [] && Handed(es)[|Handed(es)| - 1] == Pmm.ToPaddr(es[|es| - 1].j, es[|es| - 1].i)
  {
  }

  /** What `pmm_init` reserves does not do: frame 0 stays clear, and so does every
      boot table inside a kernel image of up to 1 MiB. */
  lemma InitNotMarked(ws: seq<Pmm.Word>, k: nat, phys: Frame)
    requires Pmm.Uniform(ws) && (forall m :: !Pmm.Marked(ws, m)) && (256 + k) / 32 < |ws| <= 0x8000
    ensures !BootMarked(Pmm.Reserved(ws, Pmm.KernelPages(k)), phys)
    ensures forall n :: 256 <= n < 256 + k <= 512 ==> !Pmm.Marked(Pmm.Reserved(ws, Pmm.KernelPages(k)), n)
  {
    hide Pmm.Uniform, IsBoot, Pmm.Reserved;
    var ps := Pmm.KernelPages(k);
    Pmm.ReservedMarks(ws, ps, 0);
    Pmm.PaddrDigits(0, 0);
    assert !Pmm.Reserved(ws, ps)[0][0];
    forall n | 256 <= n < 256 + k <= 512
      ensures !Pmm.Marked(Pmm.Reserved(ws, ps), n)
    {
      Pmm.KernelNotReserved(ws, k, n);
    }
  }

  lemma HandedFrame(wss: seq<seq<Pmm.Word>>, es: seq<Pmm.Event>, phys: Frame, n: nat)
    requires Pmm.IsRun(wss, es) && |wss[0]| <= 0x8000 && BootMarked(wss[0], phys) && n < |es| && es[n].Alloc?
    ensures es[n].i < 0x8000
    ensures var f := Pmm.ToPaddr(es[n].j, es[n].i);
      f != 0 && f % 0x1000 == 0 && f < 0x1_0000_0000 && !IsBoot(phys, f)
  {
    hide IsBoot, Pmm.ToPaddr, Pmm.NotFull;
    Pmm.RunKeeps(wss, es, 0, n);
    assert Pmm.Step(wss[n], wss[n + 1], es[n]);
    Pmm.PaddrDigits(es[n].j, es[n].i);
    assert !wss[n][es[n].i][es[n].j];
    assert !wss[0][es[n].i][es[n].j];
  }

  /** Frames below 4 GiB that all differ are at most 0x10_0000. */
  lemma FewFrames(fs: seq<Frame>)
    requires forall k :: 0 <= k < |fs| ==> fs[k] % 0x1000 == 0 && fs[k] < 0x1_0000_0000
    requires forall k, l :: 0 <= k < l < |fs| ==> fs[k] != fs[l]
    ensures |fs| <= 0x10_0000
  {
    var ns := seq(|fs|, k requires 0 <= k < |fs| => fs[k] / 0x1000);
    forall k, l | 0 <= k < l < |ns|
      ensures ns[k] != ns[l]
    {
      assert fs[k] == ns[k] * 0x1000 && fs[l] == ns[l] * 0x1000;
    }
    Pigeonhole(ns, 0x10_0000);
  }

  lemma {:induction false} Pigeonhole(ns: seq<nat>, bound: nat)
    requires forall k :: 0 <= k < |ns| ==> ns[k] < bound
    requires forall k, l :: 0 <= k < l < |ns| ==> ns[k] != ns[l]
    ensures |ns| <= bound
    decreases bound
  {
    if ns != [] {
      assert ns[0] < bound;
      if k :| 0 <= k < |ns| && ns[k] == bound - 1 {
        var rest := Without(ns, k);
        forall i | 0 <= i < |rest|
          ensures rest[i] < bound - 1 && rest[i] == ns[if i < k then i else i + 1]
        {
        }
        Pigeonhole(rest, bound - 1);
      } else {
        Pigeonhole(ns, bound - 1);
      }
    }
  }

  // ---------------------------------------------------------------- addresses

  /** The insertions made for the given new tables, in order. */
  ghost function Entries(len: nat, frames: seq<Frame>): (kvs: seq<(nat, nat)>)
    ensures |kvs| == |frames|
  {
    if frames == [] then []
    else Entries(len, frames[..|frames| - 1]) + [(frames[|frames| - 1], WINDOW_BASE + len + |frames| * 0x1000)]
  }

  lemma {:induction false} EntryKeys(len: nat, frames: seq<Frame>, i: nat)
    requires i < |frames|
    ensures Entries(len, frames)[i].0 == frames[i]
  {
    if i < |frames| - 1 {
      EntryKeys(len, frames[..|frames| - 1], i);
    }
  }

  lemma {:induction false} EntriesMap(kvs: seq<(nat, nat)>, len: nat, frames: seq<Frame>)
    ensures VmmHashmap.AsMap(kvs + Entries(len, frames)) == VmmHashmap.AsMap(kvs) + WindowTables(len, frames)
    decreases |frames|
  {
    var all := kvs + Entries(len, frames);
    if frames == [] {
      assert all == kvs;
    } else {
      var init := frames[..|frames| - 1];
      EntriesMap(kvs, len, init);
      assert all[..|all| - 1] == kvs + Entries(len, init);
    }
  }

  /** The insertions of one event. */
  ghost function Entered(s: State, s': State): seq<(nat, nat)> {
    if Grows(s, s') then Entries(s.len, s.pmm[..(s'.len - s.len) / 0x1000]) else []
  }

  /** The insertions of a run, after those of its start state. */
  ghost function RunEntries(kvs: seq<(nat, nat)>, ss: seq<State>, es: seq<Event>): seq<(nat, nat)>
    requires |ss| == |es| + 1
  {
    if es == [] then kvs
    else RunEntries(kvs, ss[..|es|], es[..|es| - 1]) + Entered(ss[|es| - 1], ss[|es|])
  }

  /** The known tables are those that were inserted, no key twice. */
  ghost predicate Recorded(kvs: seq<(nat, nat)>, m: Forest) {
    VmmHashmap.DistinctKeys(kvs) && VmmHashmap.AsMap(kvs) == m.vaddrOf
  }

  lemma EventEntries(s: State, s': State, e: Event)
    requires Transition(s, s', e)
    ensures Grows(s, s')
    ensures var frames := s.pmm[..(s'.len - s.len) / 0x1000];
      s'.m.vaddrOf == s.m.vaddrOf + WindowTables(s.len, frames)
  {
    hide WellFormed, FreshFrames, Grew, Closed, Mapped, Window, SameDirectories, Walk, Dangling, Need, Keeps, Room, WindowTables;
    match e
    case Map(_, _, _, _) => MapGrowth(s, s', e);
    case Create(g) =>
      RoomFrames(s, 1);
      OneTable(s.len, s.pmm[0]);
      assert s.pmm[..1] == [s.pmm[0]];
    case Switch(_) =>
      NoTable(s.len);
      assert s.pmm[..0] == [];
    case Grab(_) =>
      NoTable(s.len);
      assert s.pmm[..0] == [];
  }

  lemma OneTable(len: nat, f: Frame)
    ensures WindowTables(len, [f]) == map[f := WINDOW_BASE + len + 0x1000]
  {
    assert [f][..0] == [];
  }

  lemma NoTable(len: nat)
    ensures WindowTables(len, []) == map[]
  {
  }

  lemma StepRecorded(s: State, s': State, e: Event, kvs: seq<(nat, nat)>)
    requires Transition(s, s', e) && Recorded(kvs, s.m)
    ensures Recorded(kvs + Entered(s, s'), s'.m)
  {
    hide Transition, WindowTables, Unreferenced, WellFormed, VmmHashmap.AsMap, VmmHashmap.DistinctKeys, Entries;
    EventEntries(s, s', e);
    var frames := s.pmm[..(s'.len - s.len) / 0x1000];
    EntriesMap(kvs, s.len, frames);
    FreshInv(s, e, s');
    KeysDiffer(kvs, s.len, frames);
  }

  lemma KeysDiffer(kvs: seq<(nat, nat)>, len: nat, frames: seq<Frame>)
    requires VmmHashmap.DistinctKeys(kvs)
    requires forall i :: 0 <= i < |frames| ==> frames[i] !in VmmHashmap.AsMap(kvs)
    requires forall i, j :: 0 <= i < j < |frames| ==> frames[i] != frames[j]
    ensures VmmHashmap.DistinctKeys(kvs + Entries(len, frames))
  {
    hide VmmHashmap.AsMap, Entries;
    var all := kvs + Entries(len, frames);
    forall i, j | 0 <= i < j < |all|
      ensures all[i].0 != all[j].0
    {
      if j >= |kvs| {
        EntryKeys(len, frames, j - |kvs|);
        if i >= |kvs| {
          EntryKeys(len, frames, i - |kvs|);
        } else {
          VmmHashmap.AsMapKeys(kvs, kvs[i].0);
        }
      }
    }
  }

  lemma FreshInv(s: State, e: Event, s': State)
    requires Transition(s, s', e)
    ensures Shaped(s.m) && FreshFrames(s.m, s.pmm)
  {
  }

  /** Over every run the chains of the hashmap answer as the map of known tables
      that the page tables are stated with, starting from insertions for which
      this holds. */
  lemma {:induction false} RunLookup(ss: seq<State>, es: seq<Event>, kvs: seq<(nat, nat)>)
    requires IsRun(ss, es) && Recorded(kvs, ss[0].m)
    ensures Recorded(RunEntries(kvs, ss, es), ss[|es|].m)
    ensures forall f ::
      VmmHashmap.Lookup(VmmHashmap.Puts(RunEntries(kvs, ss, es)), f)
        == if f in ss[|es|].m.vaddrOf then Some(ss[|es|].m.vaddrOf[f]) else None
    decreases |es|
  {
    hide Transition, Inv, VmmHashmap.Lookup, VmmHashmap.Puts, VmmHashmap.AsMap;
    if |es| > 0 {
      RunPrefix(ss, es);
      RunLookup(ss[..|es|], es[..|es| - 1], kvs);
      StepRecorded(ss[|es| - 1], ss[|es|], es[|es| - 1], RunEntries(kvs, ss[..|es|], es[..|es| - 1]));
    }
    var all := RunEntries(kvs, ss, es);
    forall f
      ensures VmmHashmap.Lookup(VmmHashmap.Puts(all), f)
        == if f in ss[|es|].m.vaddrOf then Some(ss[|es|].m.vaddrOf[f]) else None
    {
      VmmHashmap.PutsRefineMap(all, f);
    }
  }

  /** The eight insertions of `vmm_init`. */
  ghost function BootEntries(phys: Frame, virt: Vaddr): seq<(nat, nat)> {
    seq(8, k requires 0 <= k < 8 => (At(phys, k), At(virt, k)))
  }

  lemma BootRecorded(phys: Frame, virt: Vaddr, pt: seq<Entry>, pt2: seq<Entry>, pt3: seq<Entry>)
    requires |pt| == 512 && |pt2| == 512 && |pt3| == 512
    ensures Recorded(BootEntries(phys, virt), BootForest(phys, virt, pt, pt2, pt3))
  {
    hide BootForest, BootTable, BootPlace, VmmHashmap.AsMap;
    var m, kvs := BootForest(phys, virt, pt, pt2, pt3), BootEntries(phys, virt);
    forall f
      ensures f in VmmHashmap.AsMap(kvs) <==> f in m.vaddrOf
      ensures f in m.vaddrOf && f in VmmHashmap.AsMap(kvs) ==> VmmHashmap.AsMap(kvs)[f] == m.vaddrOf[f]
    {
      BootFrame(phys, virt, pt, pt2, pt3, f);
      VmmHashmap.AsMapKeys(kvs, f);
      if IsBoot(phys, f) {
        var k := Ordinal(phys, f);
        assert kvs[k].0 == f;
        VmmHashmap.AsMapAt(kvs, k);
      }
    }
  }
}
