/** The physical page bitmap: `pmm_alloc_page` and `pmm_alloc_specific_page`. */
module Pmm {
  import Common

  /** A 64-bit bitmap word, bit by bit. */
  type Word = w: seq<bool> | |w| == 64 witness seq(64, _ => false)

  /** Bit k of `1 << j` as the compiled code evaluates it: a 32-bit shift with a
      five-bit count, sign-extended to 64 bits, so shifting by 31 sets bits 31
      to 63. */
  predicate InMask(j: nat, k: nat) {
    k == j % 32 || (j % 32 == 31 && 31 <= k < 64)
  }

  /** `w & (1 << j)` is not zero. */
  predicate Test(w: Word, j: nat) {
    exists k :: 0 <= k < 64 && InMask(j, k) && w[k]
  }

  /** `w | (1 << j)`. */
  function Set(w: Word, j: nat): Word {
    seq(64, k requires 0 <= k < 64 => w[k] || InMask(j, k))
  }

  /** `w < 0xffffffffffffffff`. */
  predicate NotFull(w: Word) {
    exists k :: 0 <= k < 64 && !w[k]
  }

  /** Bits 31 to 63 of the word are all equal. */
  ghost predicate TopUniform(w: Word) {
    forall k :: 31 <= k < 64 ==> w[k] == w[31]
  }

  lemma UniformTest(w: Word, j: nat)
    requires TopUniform(w) && j < 64
    ensures Test(w, j) <==> w[j % 32]
  {
    if w[j % 32] {
      assert InMask(j, j % 32);
    }
  }

  lemma UniformFull(w: Word)
    requires TopUniform(w)
    ensures NotFull(w) <==> exists j :: 0 <= j < 32 && !w[j]
  {
    if NotFull(w) {
      var k :| 0 <= k < 64 && !w[k];
      assert !w[if k < 32 then k else 31];
    }
  }

  /** Setting a bit of a uniform word leaves it uniform and changes one of the
      32 bits that matter. */
  lemma UniformSet(w: Word, j: nat)
    requires TopUniform(w) && j < 64
    ensures TopUniform(Set(w, j))
    ensures forall k :: 0 <= k < 32 ==> Set(w, j)[k] == (w[k] || k == j % 32)
  {
  }

  // -------------------------------------------------------------- coordinates

  /** bitmap_to_paddr: 32-bit unsigned arithmetic, 32 pages per word. */
  function ToPaddr(x: nat, y: nat): nat {
    (x * 0x1000 + y * 0x2_0000) % 0x1_0000_0000
  }

  /** paddr_to_bitmap: 64 pages per word, y truncated to 32 bits. */
  function Coords(paddr: nat): (nat, nat) {
    (paddr / 0x1000 / 64 % 0x1_0000_0000, paddr / 0x1000 % 64)
  }

  /** Two bits name the same frame exactly when their words are a multiple of
      0x8000 apart: below that the numbering is injective, beyond it the 32-bit
      address wraps at 4 GiB. */
  lemma PaddrInjective(x: nat, y: nat, x': nat, y': nat)
    requires x < 32 && x' < 32
    ensures ToPaddr(x, y) == ToPaddr(x', y') <==> x == x' && y % 0x8000 == y' % 0x8000
  {
    PaddrDigits(x, y);
    PaddrDigits(x', y');
  }

  lemma PaddrDigits(x: nat, y: nat)
    requires x < 32
    ensures ToPaddr(x, y) == (y % 0x8000) * 0x2_0000 + x * 0x1000
  {
    var q, r := y / 0x8000, y % 0x8000;
    assert x * 0x1000 + y * 0x2_0000 == q * 0x1_0000_0000 + (r * 0x2_0000 + x * 0x1000);
  }

  /** The frame whose bit `pmm_alloc_specific_page` sets. */
  function MarkedFrame(paddr: nat): nat {
    ToPaddr(Coords(paddr).1 % 32, Coords(paddr).0)
  }

  /** Reserving page p marks the frame of page n exactly in this case: the two
      encodings number the words by 64 and by 32 pages. */
  lemma MarksExactly(p: nat, n: nat)
    requires p < 0x10_0000 && n < 0x10_0000
    ensures MarkedFrame(p * 0x1000) == n * 0x1000 <==> p / 64 == n / 32 && p % 32 == n % 32
  {
    PageCoords(p);
    PaddrDigits(p % 64 % 32, p / 64);
    PageFrame(n);
    PaddrInjective(p % 32, p / 64, n % 32, n / 32);
  }

  lemma PageCoords(p: nat)
    requires p < 0x10_0000
    ensures Coords(p * 0x1000) == (p / 64, p % 64) && p % 64 % 32 == p % 32
  {
    assert p * 0x1000 / 0x1000 == p;
  }

  /** The bit that stands for page n. */
  lemma PageFrame(n: nat)
    requires n < 0x10_0000
    ensures ToPaddr(n % 32, n / 32) == n * 0x1000
  {
    PaddrDigits(n % 32, n / 32);
  }

  /** A call that reserves a page marks that page's own frame exactly when its
      number is below 32. */
  lemma ReserveMarks(page: nat)
    requires page < 0x10_0000
    ensures MarkedFrame(page * 0x1000) == page * 0x1000 <==> page < 32
  {
    hide MarkedFrame;
    MarksExactly(page, page);
    Halves(page);
  }

  lemma Halves(page: nat)
    ensures page / 64 == page / 32 <==> page < 32
  {
    var q, r := page / 64, page % 64;
    assert page == 64 * q + r;
    assert page / 32 == 2 * q + r / 32;
  }

  // --------------------------------------------------------------------- runs

  /** One call: a page was taken at bit j of word i, or a given page marked. */
  datatype Event = Alloc(i: nat, j: nat) | Reserve(y: nat, x: nat)

  ghost predicate Uniform(ws: seq<Word>) {
    forall i :: 0 <= i < |ws| ==> TopUniform(ws[i])
  }

  /** Bit j of word i is the lowest clear bit, in word order. */
  ghost predicate LowestFree(ws: seq<Word>, i: nat, j: nat) {
    && i < |ws| && j < 32 && !ws[i][j]
    && (forall k :: 0 <= k < j ==> ws[i][k])
    && (forall n :: 0 <= n < i ==> !NotFull(ws[n]))
  }

  ghost predicate Step(ws: seq<Word>, ws': seq<Word>, e: Event) {
    match e
    case Alloc(i, j) => LowestFree(ws, i, j) && ws' == ws[i := Set(ws[i], j)]
    case Reserve(y, x) => y < |ws| && x < 64 && ws' == if Test(ws[y], x) then ws else ws[y := Set(ws[y], x)]
  }

  ghost predicate IsRun(wss: seq<seq<Word>>, es: seq<Event>) {
    && |wss| == |es| + 1 && Uniform(wss[0])
    && forall n :: 0 <= n < |es| ==> Step(wss[n], wss[n + 1], es[n])
  }

  lemma StepUniform(ws: seq<Word>, ws': seq<Word>, e: Event)
    requires Uniform(ws) && Step(ws, ws', e)
    ensures Uniform(ws') && |ws'| == |ws|
    ensures forall i, j :: 0 <= i < |ws| && 0 <= j < 32 && ws[i][j] ==> ws'[i][j]
    ensures e.Alloc? ==> ws'[e.i][e.j]
  {
    match e
    case Alloc(i, j) => UniformSet(ws[i], j);
    case Reserve(y, x) => UniformSet(ws[y], x);
  }

  /** Uniformity holds throughout, and a bit once taken stays taken. */
  lemma {:induction false} RunKeeps(wss: seq<seq<Word>>, es: seq<Event>, m: nat, n: nat)
    requires IsRun(wss, es) && m <= n <= |es|
    ensures Uniform(wss[n]) && |wss[n]| == |wss[m]|
    ensures forall i, j :: 0 <= i < |wss[m]| && 0 <= j < 32 && wss[m][i][j] ==> wss[n][i][j]
    decreases n
  {
    hide Step;
    if n > 0 {
      RunKeeps(wss, es, if m < n then m else n - 1, n - 1);
      assert Step(wss[n - 1], wss[n], es[n - 1]);
      StepUniform(wss[n - 1], wss[n], es[n - 1]);
    }
  }

  /** Over every run without frees, two pages handed out at different times
      are different frames, as long as the bitmap stays below word 0x8000. */
  lemma RunNeverRepeats(wss: seq<seq<Word>>, es: seq<Event>, m: nat, n: nat)
    requires IsRun(wss, es) && m < n < |es| && es[m].Alloc? && es[n].Alloc?
    requires es[m].i < 0x8000 && es[n].i < 0x8000
    ensures ToPaddr(es[m].j, es[m].i) != ToPaddr(es[n].j, es[n].i)
  {
    assert Step(wss[m], wss[m + 1], es[m]) && Step(wss[n], wss[n + 1], es[n]);
    RunKeeps(wss, es, m, m);
    StepUniform(wss[m], wss[m + 1], es[m]);
    RunKeeps(wss, es, m + 1, n);
    PaddrInjective(es[m].j, es[m].i, es[n].j, es[n].i);
  }

  // ----------------------------------------------------------- reservations

  /** The bit of page n is set. */
  ghost predicate Marked(ws: seq<Word>, n: nat) {
    n / 32 < |ws| && ws[n / 32][n % 32]
  }

  /** One call of `pmm_alloc_specific_page`. */
  ghost function ReserveOne(ws: seq<Word>, p: nat): (ws': seq<Word>)
    requires p / 64 < |ws|
    ensures |ws'| == |ws|
  {
    if Test(ws[p / 64], p % 64) then ws else ws[p / 64 := Set(ws[p / 64], p % 64)]
  }

  /** The bitmap after the given pages were reserved, in order. */
  ghost function Reserved(ws: seq<Word>, ps: seq<nat>): (ws': seq<Word>)
    requires forall i :: 0 <= i < |ps| ==> ps[i] / 64 < |ws|
    ensures |ws'| == |ws|
  {
    if ps == [] then ws else ReserveOne(Reserved(ws, ps[..|ps| - 1]), ps[|ps| - 1])
  }

  lemma ReserveOneMarks(ws: seq<Word>, p: nat, n: nat)
    requires Uniform(ws) && p / 64 < |ws| && n / 32 < |ws|
    ensures Uniform(ReserveOne(ws, p))
    ensures Marked(ReserveOne(ws, p), n) <==> Marked(ws, n) || (p / 64 == n / 32 && p % 32 == n % 32)
  {
    UniformTest(ws[p / 64], p % 64);
    UniformSet(ws[p / 64], p % 64);
    assert p % 64 % 32 == p % 32;
  }

  /** After any reservations a page is marked exactly when it was before or when
      a page of the stated number is among those reserved. */
  lemma {:induction false} ReservedMarks(ws: seq<Word>, ps: seq<nat>, n: nat)
    requires Uniform(ws) && n / 32 < |ws| && forall i :: 0 <= i < |ps| ==> ps[i] / 64 < |ws|
    ensures Uniform(Reserved(ws, ps))
    ensures Marked(Reserved(ws, ps), n) <==>
      Marked(ws, n) || exists i :: 0 <= i < |ps| && ps[i] / 64 == n / 32 && ps[i] % 32 == n % 32
  {
    hide Marked, Uniform;
    if ps != [] {
      var init, p := ps[..|ps| - 1], ps[|ps| - 1];
      ReservedMarks(ws, init, n);
      ReserveOneMarks(Reserved(ws, init), p, n);
      if i :| 0 <= i < |ps| && ps[i] / 64 == n / 32 && ps[i] % 32 == n % 32 {
        if i < |init| {
          assert init[i] == ps[i];
        }
      }
    }
  }

  /** The pages of the kernel image, which begins at 1 MiB. */
  ghost function KernelPages(k: nat): (ps: seq<nat>)
    ensures |ps| == k && forall i :: 0 <= i < k ==> ps[i] == 256 + i
  {
    seq(k, i => 256 + i)
  }

  /** With [1 MiB, 1 MiB + k pages) reserved in an empty bitmap, page n of that
      range is marked exactly when the page whose reservation marks it lies in
      the range too; up to 1 MiB no page is. */
  lemma KernelNotReserved(ws: seq<Word>, k: nat, n: nat)
    requires Uniform(ws) && (forall m :: !Marked(ws, m)) && 256 <= n < 256 + k && (256 + k) / 32 < |ws|
    ensures Marked(Reserved(ws, KernelPages(k)), n) <==> 64 * (n / 32) + n % 32 < 256 + k
    ensures k <= 256 ==> !Marked(Reserved(ws, KernelPages(k)), n)
  {
    hide Marked, Reserved, Uniform;
    var ps, q := KernelPages(k), 64 * (n / 32) + n % 32;
    ReservedMarks(ws, ps, n);
    MarkedBy(n, q);
    if q < 256 + k {
      assert ps[q - 256] == q;
    }
    if i :| 0 <= i < k && ps[i] / 64 == n / 32 && ps[i] % 32 == n % 32 {
      MarkedBy(n, ps[i]);
    }
  }

  /** The lowest page whose reservation marks page n. */
  lemma MarkedBy(n: nat, p: nat)
    ensures var q := 64 * (n / 32) + n % 32;
      q / 64 == n / 32 && q % 32 == n % 32 && (p / 64 == n / 32 && p % 32 == n % 32 ==> q <= p) && (n >= 256 ==> q >= 512)
  {
  }

  // ------------------------------------------------- what being marked is for

  /** The first bit that is clear, at or before a given clear one. */
  lemma LowestExists(ws: seq<Word>, i: nat, j: nat) returns (y: nat, x: nat)
    requires Uniform(ws) && i < |ws| && j < 32 && !ws[i][j]
    ensures LowestFree(ws, y, x) && y * 32 + x <= i * 32 + j
  {
    y := 0;
    assert NotFull(ws[i]);
    while !NotFull(ws[y])
      invariant y <= i && forall n :: 0 <= n < y ==> !NotFull(ws[n])
      decreases i - y
    {
      y := y + 1;
    }
    UniformFull(ws[y]);
    x := 0;
    while ws[y][x]
      invariant x < 32 && (y == i ==> x <= j) && forall k :: 0 <= k < x ==> ws[y][k]
      invariant exists k :: x <= k < 32 && !ws[y][k]
      decreases 32 - x
    {
      x := x + 1;
    }
  }

  /** All bits before place `from` are set. */
  ghost predicate SetBefore(ws: seq<Word>, from: nat) {
    forall y, x :: 0 <= y < |ws| && 0 <= x < 32 && y * 32 + x < from ==> ws[y][x]
  }

  /** Every clear bit is handed out by some run of `pmm_alloc_page`. */
  lemma {:induction false} HandsOut(ws: seq<Word>, i: nat, j: nat, from: nat)
    returns (wss: seq<seq<Word>>, es: seq<Event>)
    requires Uniform(ws) && i < |ws| && j < 32 && !ws[i][j] && SetBefore(ws, from)
    ensures IsRun(wss, es) && wss[0] == ws && es != [] && es[|es| - 1] == Alloc(i, j)
    decreases i * 32 + j + 1 - from
  {
    hide Uniform, LowestFree, Step, SetBefore;
    var y, x := LowestExists(ws, i, j);
    var e, ws' := Alloc(y, x), TakeBit(ws, y, x);
    TakeStep(ws, y, x, from);
    if y == i && x == j {
      wss, es := [ws, ws'], [e];
    } else {
      StillClear(ws, y, x, i, j);
      wss, es := HandsOut(ws', i, j, y * 32 + x + 1);
      RunAhead(ws, ws', e, wss, es);
      wss, es := [ws] + wss, [e] + es;
    }
  }

  ghost function TakeBit(ws: seq<Word>, y: nat, x: nat): seq<Word>
    requires y < |ws|
  {
    ws[y := Set(ws[y], x)]
  }

  lemma TakeStep(ws: seq<Word>, y: nat, x: nat, from: nat)
    requires Uniform(ws) && LowestFree(ws, y, x) && SetBefore(ws, from)
    ensures y < |ws| && Step(ws, TakeBit(ws, y, x), Alloc(y, x)) && Uniform(TakeBit(ws, y, x))
    ensures from <= y * 32 + x && SetBefore(TakeBit(ws, y, x), y * 32 + x + 1)
  {
    StepUniform(ws, TakeBit(ws, y, x), Alloc(y, x));
    UniformSet(ws[y], x);
    forall v, u | 0 <= v < |ws| && 0 <= u < 32 && v * 32 + u < y * 32 + x
      ensures ws[v][u]
    {
      if v < y {
        assert !NotFull(ws[v]);
      }
    }
  }

  lemma StillClear(ws: seq<Word>, y: nat, x: nat, i: nat, j: nat)
    requires Uniform(ws) && LowestFree(ws, y, x) && i < |ws| && j < 32 && !ws[i][j] && (y != i || x != j)
    requires y * 32 + x <= i * 32 + j
    ensures !TakeBit(ws, y, x)[i][j] && y * 32 + x + 1 <= i * 32 + j
  {
    UniformSet(ws[y], x);
  }

  lemma RunAhead(ws: seq<Word>, ws': seq<Word>, e: Event, wss: seq<seq<Word>>, es: seq<Event>)
    requires Uniform(ws) && Step(ws, ws', e) && IsRun(wss, es) && wss[0] == ws'
    ensures IsRun([ws] + wss, [e] + es)
  {
    hide Step, Uniform;
    var wss', es' := [ws] + wss, [e] + es;
    forall n | 0 <= n < |es'|
      ensures Step(wss'[n], wss'[n + 1], es'[n])
    {
      if n > 0 {
        assert Step(wss[n - 1], wss[n], es[n - 1]);
      }
    }
  }

  /** The frame of page n is handed out at some point of the run. */
  ghost predicate HandedOut(es: seq<Event>, n: nat) {
    exists k :: 0 <= k < |es| && es[k].Alloc? && ToPaddr(es[k].j, es[k].i) == n * 0x1000
  }

  /** A page is protected from `pmm_alloc_page`, over every run without frees,
      exactly when its bit is set. */
  lemma ProtectedIff(ws: seq<Word>, n: nat)
    requires Uniform(ws) && |ws| <= 0x8000 && n / 32 < |ws|
    ensures Marked(ws, n) <==> forall wss, es :: IsRun(wss, es) && wss[0] == ws ==> !HandedOut(es, n)
  {
    PageFrame(n);
    if Marked(ws, n) {
      forall wss, es | IsRun(wss, es) && wss[0] == ws
        ensures !HandedOut(es, n)
      {
        NotHanded(wss, es, n);
      }
    } else {
      var wss, es := HandsOut(ws, n / 32, n % 32, 0);
      assert HandedOut(es, n);
    }
  }

  lemma NotHanded(wss: seq<seq<Word>>, es: seq<Event>, n: nat)
    requires IsRun(wss, es) && |wss[0]| <= 0x8000 && Marked(wss[0], n)
    ensures !HandedOut(es, n)
  {
    PageFrame(n);
    forall k | 0 <= k < |es| && es[k].Alloc?
      ensures ToPaddr(es[k].j, es[k].i) != n * 0x1000
    {
      RunKeeps(wss, es, 0, k);
      assert Step(wss[k], wss[k + 1], es[k]);
      PaddrInjective(es[k].j, es[k].i, n % 32, n / 32);
    }
  }

  /** The bitmap that `pmm_init` sets up has 0x23000 words, so the bound is not
      met by the configuration: word 0x8000 names frame 0 again. */
  lemma ConfiguredBitmapWraps()
    ensures (Common.KERNEL_HEAP_START - Common.KERNEL_PMM_START) * 8 / 64 == 0x23000 > 0x8000
    ensures ToPaddr(0, 0x8000) == ToPaddr(0, 0)
  {
  }

  // --------------------------------------------------------------- the bitmap

  class Bitmap {
    const words: array<Word>

    constructor (count: nat)
      ensures fresh(words) && words.Length == count
      ensures forall i :: 0 <= i < count ==> words[i] == seq(64, _ => false)
    {
      words := new Word[count](_ => seq(64, _ => false));
    }

    /** `pmm_alloc_page`. Address 0 is returned both for frame 0 and when every
        word is full. */
    method AllocPage() returns (paddr: nat, ghost e: Event)
      requires Uniform(words[..])
      modifies words
      ensures Uniform(words[..])
      ensures if forall i :: 0 <= i < words.Length ==> !old(NotFull(words[i]))
              then paddr == 0 && words[..] == old(words[..])
              else e.Alloc? && Step(old(words[..]), words[..], e) && paddr == ToPaddr(e.j, e.i)
    {
      e := Alloc(0, 0);
      ghost var ws := words[..];
      var i := 0;
      while i < words.Length
        invariant i <= words.Length && words[..] == ws
        invariant forall n :: 0 <= n < i ==> !NotFull(ws[n])
      {
        if NotFull(words[i]) {
          assert TopUniform(ws[i]);
          UniformFull(ws[i]);
          var j := 0;
          while j < 64
            invariant j < 32 && words[..] == ws
            invariant forall k :: 0 <= k < j ==> ws[i][k]
            decreases 64 - j
          {
            UniformTest(ws[i], j);
            if !Test(words[i], j) {
              words[i] := Set(words[i], j);
              assert words[..] == ws[i := Set(ws[i], j)];
              e := Alloc(i, j);
              assert Step(ws, words[..], e);
              StepUniform(ws, words[..], e);
              assert NotFull(ws[i]);
              return ToPaddr(j, i), e;
            }
            j := j + 1;
          }
        }
        i := i + 1;
      }
      return 0, e;
    }

    /** `pmm_alloc_specific_page`, for an address the bitmap covers. */
    method AllocSpecificPage(paddr: nat) returns (taken: bool)
      requires Uniform(words[..]) && Coords(paddr).0 < words.Length
      modifies words
      ensures Uniform(words[..])
      ensures Step(old(words[..]), words[..], Reserve(Coords(paddr).0, Coords(paddr).1))
      ensures paddr / 0x1000 < 0x10_0000 ==> words[..] == ReserveOne(old(words[..]), paddr / 0x1000)
      ensures taken == old(words[Coords(paddr).0])[Coords(paddr).1 % 32]
      ensures words[Coords(paddr).0][Coords(paddr).1 % 32]
    {
      var (y, x) := Coords(paddr);
      ghost var ws := words[..];
      assert TopUniform(ws[y]);
      UniformTest(ws[y], x);
      UniformSet(ws[y], x);
      if Test(words[y], x) {
        taken := true;
      } else {
        words[y] := Set(words[y], x);
        taken := false;
      }
      assert words[..] == if Test(ws[y], x) then ws else ws[y := Set(ws[y], x)];
      StepUniform(ws, words[..], Reserve(y, x));
    }
  }
}
