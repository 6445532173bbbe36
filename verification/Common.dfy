/** What the parts of the kernel model share: a few value types, list edits,
    page arithmetic and the layout of `vmm.h`. */
module Common {

  datatype Option<+T> = None | Some(value: T)

  type Byte = b: nat | b < 256

  const PAGE_SIZE := 0x1000

  const KERNEL_TEXT_START := 0xffff_ff80_0000_0000
  const VGA_TEXT_BUFFER_BASE := 0xffff_ff80_000c_0000
  const KERNEL_PMM_START := VGA_TEXT_BUFFER_BASE + 0x28000
  const KERNEL_HEAP_START := 0xffff_ff80_0020_0000
  const KERNEL_STACK_START := 0xffff_ff80_002f_e000
  const KERNEL_PAGE_TBL_START := 0xffff_ff80_0030_0000
  const KERNEL_STACK_SIZE := 0x2000

  /** PAGE_ALIGN */
  function PageAlign(n: nat): (m: nat)
    ensures n <= m < n + 0x1000 && m % 0x1000 == 0
  {
    (n + 0xfff) / 0x1000 * 0x1000
  }

  /** PAGE_ALIGN_DOWN */
  function PageAlignDown(n: nat): (m: nat)
    ensures m <= n < m + 0x1000 && m % 0x1000 == 0
  {
    n / 0x1000 * 0x1000
  }

  /** A list with x put in at position i. */
  function Insert<T>(s: seq<T>, i: nat, x: T): seq<T>
    requires i <= |s|
  {
    s[..i] + [x] + s[i..]
  }

  /** A list with element i taken out. */
  ghost function Without<T>(s: seq<T>, i: nat): seq<T>
    requires i < |s|
  {
    s[..i] + s[i + 1..]
  }

  // ------------------------------------------------------ little-endian numbers

  /** The number that bytes spell, least significant first. */
  function Number(s: seq<Byte>): nat {
    if s == [] then 0 else s[0] + 256 * Number(s[1..])
  }

  /** n as k bytes. */
  function Bytes(n: nat, k: nat): (s: seq<Byte>)
    ensures |s| == k
  {
    if k == 0 then [] else [n % 256] + Bytes(n / 256, k - 1)
  }

  function Power256(k: nat): nat {
    if k == 0 then 1 else 256 * Power256(k - 1)
  }

  /** Reading is the inverse of writing ... */
  lemma {:induction false} NumberOfBytes(n: nat, k: nat)
    requires n < Power256(k)
    ensures Number(Bytes(n, k)) == n
  {
    if k > 0 {
      NumberOfBytes(n / 256, k - 1);
      assert Bytes(n, k)[1..] == Bytes(n / 256, k - 1);
    }
  }

  /** ... and the other way round. */
  lemma {:induction false} BytesOfNumber(s: seq<Byte>)
    ensures Number(s) < Power256(|s|) && Bytes(Number(s), |s|) == s
  {
    if s != [] {
      BytesOfNumber(s[1..]);
      assert Number(s) / 256 == Number(s[1..]) && Number(s) % 256 == s[0];
    }
  }

  lemma Powers()
    ensures Power256(2) == 0x1_0000 && Power256(4) == 0x1_0000_0000 && Power256(8) == 0x1_0000_0000_0000_0000
  {
    assert Power256(1) == 0x100 && Power256(2) == 0x1_0000 && Power256(3) == 0x100_0000;
    assert Power256(4) == 0x1_0000_0000 && Power256(5) == 0x100_0000_0000 && Power256(6) == 0x1_0000_0000_0000;
    assert Power256(7) == 0x100_0000_0000_0000;
  }
}
