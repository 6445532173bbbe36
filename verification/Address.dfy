/** Virtual addresses and page-table entries: the index arithmetic and the
    bit layout that `mmap` shares with the processor's four-level walk. */
module Address {
  import opened Common

  type Frame = nat      // physical address of a page frame
  type Vaddr = nat      // 64-bit virtual address

  const TABLE_ENTRIES := 512

  /** The four table indices of a page, PML4 index first. */
  type Page = seq<nat>

  ghost predicate ValidPage(p: Page) {
    |p| == 4 && forall k :: 0 <= k < 4 ==> p[k] < 512
  }

  /** Bytes covered by one entry of a table at the given level. */
  function Span(level: nat): (s: nat)
    requires level <= 3
    ensures s > 0
  {
    if level == 0 then 0x1000
    else if level == 1 then 0x20_0000
    else if level == 2 then 0x4000_0000
    else 0x80_0000_0000
  }

  /** `(addr >> (9 * level + 12)) & 0x1ff`. */
  function Index(addr: Vaddr, level: nat): (i: nat)
    requires level <= 3
    ensures i < TABLE_ENTRIES
  {
    (addr / Span(level)) % 512
  }

  function PageOf(addr: Vaddr): (p: Page)
    ensures ValidPage(p)
  {
    [Index(addr, 3), Index(addr, 2), Index(addr, 1), Index(addr, 0)]
  }

  /** Addresses the processor accepts: bits 47 to 63 are all equal. */
  predicate Canonical(addr: Vaddr) {
    addr < 0x8000_0000_0000 || 0xffff_8000_0000_0000 <= addr < 0x1_0000_0000_0000_0000
  }

  /** The page number that four indices spell out. */
  function PageNumber(p: Page): nat
    requires |p| == 4
  {
    ((p[0] * 512 + p[1]) * 512 + p[2]) * 512 + p[3]
  }

  /** Each level's index is nine more bits of the page number. */
  lemma IndexDigits(addr: Vaddr)
    ensures addr / 0x20_0000 == addr / 0x1000 / 512
    ensures addr / 0x4000_0000 == addr / 0x1000 / 512 / 512
    ensures addr / 0x80_0000_0000 == addr / 0x1000 / 512 / 512 / 512
  {
  }

  /** The four indices hold exactly the low 36 bits of the page number. */
  lemma PageNumberOf(addr: Vaddr)
    ensures PageNumber(PageOf(addr)) == (addr / 0x1000) % 0x10_0000_0000
  {
    IndexDigits(addr);
    Digits(addr / 0x1000);
  }

  lemma Digits(n: nat)
    ensures ((n / 512 / 512 / 512 % 512 * 512 + n / 512 / 512 % 512) * 512 + n / 512 % 512) * 512 + n % 512
         == n % 0x10_0000_0000
  {
    LowDigit(n, 0x800_0000);
    LowDigit(n / 512, 0x4_0000);
    LowDigit(n / 512 / 512, 512);
  }

  lemma LowDigit(n: nat, d: nat)
    requires d > 0
    ensures n % (d * 512) == (n / 512 % d) * 512 + n % 512
  {
    var q, r := n / 512, n % 512;
    var t, u := q / d, q % d;
    calc {
      n;
      q * 512 + r;
      (t * d + u) * 512 + r;
      { assert (t * d) * 512 == t * (d * 512); }
      t * (d * 512) + (u * 512 + r);
    }
    ModUnique(n, d * 512, t, u * 512 + r);
  }

  lemma ModUnique(n: nat, d: nat, t: nat, r: nat)
    requires d > 0 && n == t * d + r && r < d
    ensures n % d == r
  {
    var q := n / d;
    assert n == q * d + n % d;
    assert (q - t) * d == r - n % d by {
      assert (q - t) * d == q * d - t * d;
    }
    MulBounds(q - t, d);
  }

  lemma MulBounds(k: int, d: int)
    requires d > 0
    ensures k >= 1 ==> k * d >= d
    ensures k <= -1 ==> k * d <= -d
    ensures k == 0 ==> k * d == 0
  {
  }

  /** Two canonical addresses select the same four entries exactly when they
      lie on the same page, so updating one page's entry is a point update. */
  lemma SamePage(a: Vaddr, b: Vaddr)
    requires Canonical(a) && Canonical(b)
    ensures PageOf(a) == PageOf(b) <==> a / 0x1000 == b / 0x1000
  {
    IndexDigits(a);
    IndexDigits(b);
    if PageOf(a) == PageOf(b) {
      PageNumberOf(a);
      PageNumberOf(b);
      CanonicalLow(a, b);
    }
  }

  lemma CanonicalLow(a: Vaddr, b: Vaddr)
    requires Canonical(a) && Canonical(b)
    requires (a / 0x1000) % 0x10_0000_0000 == (b / 0x1000) % 0x10_0000_0000
    ensures a / 0x1000 == b / 0x1000
  {
    CanonicalPage(a);
    CanonicalPage(b);
  }

  lemma CanonicalPage(a: Vaddr)
    requires Canonical(a)
    ensures var n := a / 0x1000;
      if a < 0x8000_0000_0000 then n < 0x8_0000_0000 && n % 0x10_0000_0000 == n
      else n % 0x10_0000_0000 == n - 0xf_fff0_0000_0000 && n >= 0xf_fff8_0000_0000
  {
    var n := a / 0x1000;
    if a < 0x8000_0000_0000 {
      ModUnique(n, 0x10_0000_0000, 0, n);
    } else {
      ModUnique(n, 0x10_0000_0000, 0xffff, n - 0xffff * 0x10_0000_0000);
    }
  }

  /** The indices of an address in the first gigabytes of the kernel half. */
  lemma KernelIndices(r: nat)
    requires r < 0x1_0000_0000
    ensures Index(KERNEL_TEXT_START + r, 3) == 511
    ensures Index(KERNEL_TEXT_START + r, 2) == r / 0x4000_0000
    ensures Index(KERNEL_TEXT_START + r, 1) == r / 0x20_0000 % 512
    ensures Index(KERNEL_TEXT_START + r, 0) == r / 0x1000 % 512
  {
    KernelQuotient(r, 0x80_0000_0000, 0x1ff_ffff);
    KernelQuotient(r, 0x4000_0000, 0x1ff_ffff * 512);
    KernelQuotient(r, 0x20_0000, 0x1ff_ffff * 512 * 512);
    KernelQuotient(r, 0x1000, 0x1ff_ffff * 512 * 512 * 512);
    Multiple512(0x1ff_ffff * 512 / 512, r / 0x4000_0000);
    Multiple512(0x1ff_ffff * 512, r / 0x20_0000);
    Multiple512(0x1ff_ffff * 512 * 512, r / 0x1000);
  }

  lemma KernelQuotient(r: nat, d: nat, q: nat)
    requires d > 0 && q * d == KERNEL_TEXT_START
    ensures (KERNEL_TEXT_START + r) / d == q + r / d
  {
    var n := KERNEL_TEXT_START + r;
    calc {
      n;
      q * d + (r / d) * d + r % d;
      (q + r / d) * d + r % d;
    }
    DivUnique(n, d, q + r / d, r % d);
  }

  lemma DivUnique(n: nat, d: nat, t: nat, r: nat)
    requires d > 0 && n == t * d + r && r < d
    ensures n / d == t
  {
    ModUnique(n, d, t, r);
    assert (n / d) * d == t * d;
    assert (n / d - t) * d == 0;
    MulBounds(n / d - t, d);
  }

  lemma Multiple512(k: nat, m: nat)
    ensures (k * 512 + m) % 512 == m % 512
  {
  }

  /** A page-table entry as the walk sees it. */
  datatype Entry = Entry(present: bool, frame: Frame)

  const NO_ENTRY := Entry(false, 0)

  const ADDRESS_MASK: bv64 := 0xffff_ffff_ffff_f000

  /** The 64-bit word `mmap` stores: `paddr | flags | 0x7`. */
  function EntryBits(paddr: bv64, flags: bv64): bv64 {
    paddr | flags | 0x7
  }

  /** The stored word is present and yields back the frame exactly when the
      arguments put nothing above bit 11 that the frame does not have and the
      frame is page aligned. */
  lemma EntryBitsDecode(paddr: bv64, flags: bv64)
    ensures EntryBits(paddr, flags) & 1 == 1
    ensures EntryBits(paddr, flags) & ADDRESS_MASK == paddr
       <==> paddr & 0xfff == 0 && flags & ADDRESS_MASK & !paddr == 0
  {
    var w := EntryBits(paddr, flags);
    assert w & ADDRESS_MASK == (paddr | flags) & ADDRESS_MASK;
  }

  /** The entry that the walk reads from a stored word. */
  function Decode(w: bv64): Entry {
    Entry(w & 1 == 1, (w & ADDRESS_MASK) as nat)
  }

  /** So storing an aligned frame with flags below bit 12 stores that entry. */
  lemma StoredEntry(paddr: bv64, flags: bv64)
    requires paddr & 0xfff == 0 && flags & ADDRESS_MASK == 0
    ensures Decode(EntryBits(paddr, flags)) == Entry(true, paddr as nat)
  {
    hide EntryBits;
    assert flags & ADDRESS_MASK & !paddr == 0;
    EntryBitsDecode(paddr, flags);
  }
}
