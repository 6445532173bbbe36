/** `kmalloc`, `kfree` and `kheap_init` on a heap that does not grow. */
module KernelHeap {
  import opened Common

  /** sizeof(memory_region_t): a used flag and a 32-bit size, packed. */
  const HEADER := 5

  /** A memory_region_t header. */
  datatype Block = Block(used: bool, size: nat)

  // ------------------------------------------------------- block sequences

  /** Bytes a sequence of blocks occupies, headers included. */
  ghost function Total(bs: seq<Block>): nat {
    if bs == [] then 0 else Total(bs[..|bs| - 1]) + bs[|bs| - 1].size + HEADER
  }

  /** Offset of the i-th header. */
  ghost function Offset(bs: seq<Block>, i: nat): nat
    requires i <= |bs|
  {
    Total(bs[..i])
  }

  /** Payload of the block that blocks i..j-1 make when merged: their sizes
      and the headers between them. */
  ghost function Merged(bs: seq<Block>, i: nat, j: nat): int
    requires i < j <= |bs|
  {
    Total(bs[i..j]) - HEADER
  }

  lemma {:induction false} TotalConcat(a: seq<Block>, b: seq<Block>)
    ensures Total(a + b) == Total(a) + Total(b)
    decreases |b|
  {
    if b == [] {
      assert a + b == a;
    } else {
      var b' := b[..|b| - 1];
      assert (a + b)[..|a + b| - 1] == a + b';
      TotalConcat(a, b');
    }
  }

  lemma OffsetStep(bs: seq<Block>, i: nat)
    requires i < |bs|
    ensures Offset(bs, i + 1) == Offset(bs, i) + bs[i].size + HEADER
  {
    assert bs[..i + 1][..i] == bs[..i];
  }

  lemma {:induction false} OffsetMonotone(bs: seq<Block>, i: nat, j: nat)
    requires i < j <= |bs|
    ensures Offset(bs, i) + bs[i].size + HEADER <= Offset(bs, j)
    decreases j - i
  {
    OffsetStep(bs, j - 1);
    if i < j - 1 {
      OffsetMonotone(bs, i, j - 1);
    }
  }

  lemma MergedOffsets(bs: seq<Block>, i: nat, j: nat)
    requires i < j <= |bs|
    ensures Merged(bs, i, j) == Offset(bs, j) - Offset(bs, i) - HEADER
  {
    assert bs[..j] == bs[..i] + bs[i..j];
    TotalConcat(bs[..i], bs[i..j]);
  }

  lemma MergedOne(bs: seq<Block>, i: nat)
    requires i < |bs|
    ensures Merged(bs, i, i + 1) == bs[i].size
  {
    MergedOffsets(bs, i, i + 1);
    OffsetStep(bs, i);
  }

  lemma MergedStep(bs: seq<Block>, i: nat, j: nat)
    requires i < j < |bs|
    ensures Merged(bs, i, j + 1) == Merged(bs, i, j) + bs[j].size + HEADER
  {
    MergedOffsets(bs, i, j);
    MergedOffsets(bs, i, j + 1);
    OffsetStep(bs, j);
  }

  lemma {:induction false} MergedMonotone(bs: seq<Block>, i: nat, j: nat, k: nat)
    requires i < j <= k <= |bs|
    ensures Merged(bs, i, j) <= Merged(bs, i, k)
    decreases k - j
  {
    if j < k {
      MergedStep(bs, i, k - 1);
      MergedMonotone(bs, i, j, k - 1);
    }
  }

  // ------------------------------------------------- first fit, declaratively

  /** Blocks i..j-1 are a maximal run of adjacent free blocks. */
  ghost predicate MaximalRun(bs: seq<Block>, i: nat, j: nat) {
    && i < j <= |bs|
    && (forall k :: i <= k < j ==> !bs[k].used)
    && (i > 0 ==> bs[i - 1].used)
    && (j < |bs| ==> bs[j].used)
  }

  /** Every maximal run starting before block n is too small when merged. */
  ghost predicate NoFitBefore(bs: seq<Block>, size: nat, n: nat) {
    forall i: nat, j: nat :: MaximalRun(bs, i, j) && i < n ==> Merged(bs, i, j) < size
  }

  ghost predicate NoFit(bs: seq<Block>, size: nat) {
    NoFitBefore(bs, size, |bs|)
  }

  /** Block i starts the lowest maximal run that is large enough when merged. */
  ghost predicate FirstFit(bs: seq<Block>, size: nat, i: nat) {
    && NoFitBefore(bs, size, i)
    && exists j: nat :: MaximalRun(bs, i, j) && Merged(bs, i, j) >= size
  }

  /** Merging from block i first suffices with blocks i..j-1. */
  ghost predicate StopsAt(bs: seq<Block>, size: nat, i: nat, j: nat) {
    && i < j <= |bs|
    && (forall k :: i <= k < j ==> !bs[k].used)
    && Merged(bs, i, j) >= size
    && (j > i + 1 ==> Merged(bs, i, j - 1) < size)
  }

  lemma RunExists(bs: seq<Block>, i: nat, j: nat) returns (e: nat)
    requires i < j <= |bs| && (forall k :: i <= k < j ==> !bs[k].used)
    requires i > 0 ==> bs[i - 1].used
    ensures j <= e && MaximalRun(bs, i, e)
    decreases |bs| - j
  {
    if j == |bs| || bs[j].used {
      e := j;
    } else {
      e := RunExists(bs, i, j + 1);
    }
  }

  /** A large enough merge makes its first block the first fit. */
  lemma StopIsFirstFit(bs: seq<Block>, size: nat, i: nat, j: nat)
    requires StopsAt(bs, size, i, j) && (i > 0 ==> bs[i - 1].used) && NoFitBefore(bs, size, i)
    ensures FirstFit(bs, size, i) && !NoFit(bs, size)
  {
    var e := RunExists(bs, i, j);
    MergedMonotone(bs, i, j, e);
  }

  /** Extending "no fit" over a failed run and the used block behind it. */
  lemma NoFitOver(bs: seq<Block>, size: nat, i: nat, j: nat)
    requires NoFitBefore(bs, size, i) && MaximalRun(bs, i, j) && Merged(bs, i, j) < size
    ensures NoFitBefore(bs, size, j)
    ensures j < |bs| ==> NoFitBefore(bs, size, j + 1)
  {
    forall a: nat, b: nat | MaximalRun(bs, a, b) && i <= a <= j
      ensures Merged(bs, a, b) < size
    {
      assert a == i && b == j;
    }
  }

  lemma NoFitAtStart(bs: seq<Block>, size: nat)
    ensures NoFitBefore(bs, size, 0) && Offset(bs, 0) == 0
  {
    assert bs[..0] == [];
  }

  lemma NoFitSkip(bs: seq<Block>, size: nat, k: nat)
    requires NoFitBefore(bs, size, k) && k < |bs| && bs[k].used
    ensures NoFitBefore(bs, size, k + 1)
  {
  }

  // ---------------------------------------------------------- the new blocks

  /** The heap after the request is served by merging blocks i..j-1. When the
      rest is no larger than a header, only the used flag is set: a single
      block keeps its slack, but a merged block keeps its old, smaller size. */
  ghost function Allocate(bs: seq<Block>, size: nat, i: nat, j: nat): seq<Block>
    requires i < j <= |bs|
  {
    if Merged(bs, i, j) - HEADER > size then
      bs[..i] + [Block(true, size), Block(false, Merged(bs, i, j) - HEADER - size)] + bs[j..]
    else
      bs[i := bs[i].(used := true)]
  }

  /** Replacing blocks i..j-1 by others of the same total moves nothing else. */
  lemma Splice(bs: seq<Block>, i: nat, mid: seq<Block>, j: nat, n: nat)
    requires i <= j <= n <= |bs| && Total(mid) == Total(bs[i..j])
    ensures Total(bs[..i] + mid + bs[j..n]) == Total(bs[..n])
  {
    TotalConcat(bs[..i], mid);
    TotalConcat(bs[..i] + mid, bs[j..n]);
    TotalConcat(bs[..i], bs[i..j]);
    TotalConcat(bs[..i] + bs[i..j], bs[j..n]);
    assert bs[..n] == bs[..i] + bs[i..j] + bs[j..n];
  }

  lemma TotalOne(b: Block)
    ensures Total([b]) == b.size + HEADER
  {
    assert [b][..0] == [];
  }

  lemma TotalTwo(b: Block, c: Block)
    ensures Total([b, c]) == b.size + HEADER + c.size + HEADER
  {
    TotalOne(b);
    TotalOne(c);
    TotalConcat([b], [c]);
    assert [b] + [c] == [b, c];
  }

  lemma AllocateTotal(bs: seq<Block>, size: nat, i: nat, j: nat)
    requires i < j <= |bs|
    ensures Total(Allocate(bs, size, i, j)) == Total(bs)
  {
    hide Total;
    assert bs[..|bs|] == bs && bs[j..|bs|] == bs[j..];
    if Merged(bs, i, j) - HEADER > size {
      var b, c := Block(true, size), Block(false, Merged(bs, i, j) - HEADER - size);
      TotalTwo(b, c);
      Splice(bs, i, [b, c], j, |bs|);
    } else {
      UseTotal(bs, i, true);
    }
  }

  lemma UseTotal(bs: seq<Block>, i: nat, used: bool)
    requires i < |bs|
    ensures Total(bs[i := bs[i].(used := used)]) == Total(bs)
  {
    var c := bs[i].(used := used);
    TotalOne(c);
    TotalOne(bs[i]);
    assert bs[i..i + 1] == [bs[i]] && bs[..|bs|] == bs;
    Splice(bs, i, [c], i + 1, |bs|);
    assert bs[i := c] == bs[..i] + [c] + bs[i + 1..|bs|];
  }

  // ------------------------------------------------- headers lying in memory

  /** The headers in memory, followed from heap_start, are bs, and they tile
      the heap exactly. */
  ghost predicate Tiles(mem: seq<Block>, bs: seq<Block>) {
    && bs != [] && Total(bs) == |mem|
    && forall i :: 0 <= i < |bs| ==> HeaderAt(mem, bs, i)
  }

  ghost predicate HeaderAt(mem: seq<Block>, bs: seq<Block>, i: nat)
    requires i < |bs|
  {
    Offset(bs, i) < |mem| && mem[Offset(bs, i)] == bs[i]
  }

  lemma TilesOffset(mem: seq<Block>, bs: seq<Block>, i: nat)
    requires Tiles(mem, bs) && i <= |bs|
    ensures Offset(bs, i) <= |mem|
    ensures i < |bs| <==> Offset(bs, i) < |mem|
    ensures i < |bs| ==> mem[Offset(bs, i)] == bs[i] && Offset(bs, i + 1) == Offset(bs, i) + bs[i].size + HEADER
  {
    assert bs[..|bs|] == bs;
    if i < |bs| {
      assert HeaderAt(mem, bs, i);
      OffsetStep(bs, i);
    }
  }

  /** Changing the flag of one header in memory. */
  lemma TilesFlag(mem: seq<Block>, bs: seq<Block>, i: nat, used: bool)
    requires Tiles(mem, bs) && i < |bs|
    ensures Offset(bs, i) < |mem|
    ensures Tiles(mem[Offset(bs, i) := bs[i].(used := used)], bs[i := bs[i].(used := used)])
  {
    TilesOffset(mem, bs, i);
    UseTotal(bs, i, used);
    var bs' := bs[i := bs[i].(used := used)];
    var mem' := mem[Offset(bs, i) := bs[i].(used := used)];
    forall k | 0 <= k < |bs'|
      ensures HeaderAt(mem', bs', k)
    {
      TilesOffset(mem, bs, k);
      FlagOffset(bs, i, used, k);
      if k < i { OffsetMonotone(bs, k, i); }
      if i < k { OffsetMonotone(bs, i, k); }
    }
  }

  lemma {:induction false} FlagOffset(bs: seq<Block>, i: nat, used: bool, k: nat)
    requires i < |bs| && k <= |bs|
    ensures Offset(bs[i := bs[i].(used := used)], k) == Offset(bs, k)
  {
    var bs' := bs[i := bs[i].(used := used)];
    if k > 0 {
      FlagOffset(bs, i, used, k - 1);
      OffsetStep(bs, k - 1);
      OffsetStep(bs', k - 1);
    }
  }

  /** Writing the two headers of a split. */
  lemma TilesSplit(mem: seq<Block>, bs: seq<Block>, size: nat, i: nat, j: nat)
    requires Tiles(mem, bs) && i < j <= |bs| && Merged(bs, i, j) - HEADER > size
    ensures var o := Offset(bs, i);
      && o + size + HEADER < |mem|
      && Tiles(mem[o := Block(true, size)][o + size + HEADER := Block(false, Merged(bs, i, j) - HEADER - size)],
               Allocate(bs, size, i, j))
  {
    hide Merged, Total, Allocate, HeaderAt;
    var o := Offset(bs, i);
    var rest := Merged(bs, i, j) - HEADER - size;
    AllocateElements(bs, size, i, j);
    MergedOffsets(bs, i, j);
    TilesOffset(mem, bs, j);
    var mem' := mem[o := Block(true, size)][o + size + HEADER := Block(false, rest)];
    var bs' := Allocate(bs, size, i, j);
    AllocateTotal(bs, size, i, j);
    forall k | 0 <= k < |bs'|
      ensures HeaderAt(mem', bs', k)
    {
      SplitHeader(mem, bs, size, i, j, k);
    }
  }

  lemma SplitHeader(mem: seq<Block>, bs: seq<Block>, size: nat, i: nat, j: nat, k: nat)
    requires Tiles(mem, bs) && i < j <= |bs| && Merged(bs, i, j) - HEADER > size
    requires k < |Allocate(bs, size, i, j)|
    ensures var o := Offset(bs, i);
      && o + size + HEADER < |mem|
      && HeaderAt(mem[o := Block(true, size)][o + size + HEADER := Block(false, Merged(bs, i, j) - HEADER - size)],
                  Allocate(bs, size, i, j), k)
  {
    hide Merged, Total, Allocate;
    var bs' := Allocate(bs, size, i, j);
    AllocateElements(bs, size, i, j);
    MergedOffsets(bs, i, j);
    TilesOffset(mem, bs, i);
    TilesOffset(mem, bs, j);
    if k < i {
      AllocatePrefix(bs, size, i, j, k);
      TilesOffset(mem, bs, k);
      OffsetMonotone(bs, k, i);
    } else if k <= i + 1 {
      AllocatePrefix(bs, size, i, j, i);
      OffsetStep(bs', i);
    } else {
      var n := j + (k - (i + 2));
      SplitOffset(bs, size, i, j, n);
      TilesOffset(mem, bs, n);
      if j < n { OffsetMonotone(bs, j, n); }
    }
  }

  lemma AllocateElements(bs: seq<Block>, size: nat, i: nat, j: nat)
    requires i < j <= |bs| && Merged(bs, i, j) - HEADER > size
    ensures var bs' := Allocate(bs, size, i, j);
      && |bs'| == |bs| - (j - i) + 2
      && bs'[i] == Block(true, size) && bs'[i + 1] == Block(false, Merged(bs, i, j) - HEADER - size)
      && (forall k :: 0 <= k < i ==> bs'[k] == bs[k])
      && (forall k :: i + 2 <= k < |bs'| ==> bs'[k] == bs[k - (i + 2) + j])
  {
    hide Merged;
    var bs' := Allocate(bs, size, i, j);
    forall k | i + 2 <= k < |bs'|
      ensures bs'[k] == bs[k - (i + 2) + j]
    {
      assert bs'[k] == bs[j..][k - (i + 2)];
    }
  }

  lemma AllocatePrefix(bs: seq<Block>, size: nat, i: nat, j: nat, k: nat)
    requires k <= i < j <= |bs| && Merged(bs, i, j) - HEADER > size
    ensures k <= |Allocate(bs, size, i, j)| && Allocate(bs, size, i, j)[..k] == bs[..k]
  {
    hide Merged;
  }

  lemma SplitOffset(bs: seq<Block>, size: nat, i: nat, j: nat, n: nat)
    requires i < j <= n <= |bs| && Merged(bs, i, j) - HEADER > size
    ensures var bs' := Allocate(bs, size, i, j);
      i + 2 + (n - j) <= |bs'| && Offset(bs', i + 2 + (n - j)) == Offset(bs, n)
  {
    var bs' := Allocate(bs, size, i, j);
    var b, c := Block(true, size), Block(false, Merged(bs, i, j) - HEADER - size);
    assert bs'[..i + 2 + (n - j)] == bs[..i] + [b, c] + bs[j..n];
    TotalTwo(b, c);
    Splice(bs, i, [b, c], j, n);
  }

  // -------------------------------------------------- machine subtraction

  /** `a - b` on 64-bit unsigned integers. */
  function Sub64(a: nat, b: nat): nat {
    (a - b) % 0x1_0000_0000_0000_0000
  }

  /** `(uint32_t) (a - b)`. */
  function Sub32(a: nat, b: nat): nat {
    (a - b) % 0x1_0000_0000
  }

  /** The request is met by one block that is smaller than a header. */
  predicate Wraps(bs: seq<Block>, i: nat, j: nat) {
    i < |bs| && j == i + 1 && bs[i].size < HEADER
  }

  /** Serving a request from a single large enough free block, with the
      subtractions of the C code, keeps the bytes of that block exactly when
      the block is no smaller than a header; otherwise the rest is recorded as
      larger than any heap. Requests of at least five bytes never meet this. */
  lemma SplitWraps(b: Block, size: nat)
    requires size <= b.size < 0x1_0000_0000
    ensures var bs' :=
        if Sub64(b.size, HEADER) > size then [Block(true, size), Block(false, Sub32(b.size, size + HEADER))]
        else [Block(true, b.size)];
      Total(bs') == b.size + HEADER <==> HEADER <= b.size
    ensures b.size < HEADER ==> Sub64(b.size, HEADER) > size && Sub32(b.size, size + HEADER) >= 0xffff_fffb
    ensures forall bs: seq<Block>, i: nat, j: nat :: HEADER <= size && StopsAt(bs, size, i, j) ==> !Wraps(bs, i, j)
  {
    hide Total, Merged;
    forall bs: seq<Block>, i: nat, j: nat | HEADER <= size && StopsAt(bs, size, i, j)
      ensures !Wraps(bs, i, j)
    {
      MergedOne(bs, i);
    }
    TotalTwo(Block(true, size), Block(false, Sub32(b.size, size + HEADER)));
    TotalOne(Block(true, b.size));
  }

  /** The five bytes of a header: the flag and the size, least significant byte
      first. */
  function HeaderBytes(b: Block): (s: seq<Byte>)
    ensures |s| == HEADER
  {
    [if b.used then 1 else 0] + Bytes(b.size, 4)
  }

  function ReadHeader(s: seq<Byte>): Block
    requires |s| == HEADER
  {
    Block(s[0] != 0, Number(s[1..]))
  }

  lemma HeaderRoundTrip(b: Block)
    requires b.size < 0x1_0000_0000
    ensures ReadHeader(HeaderBytes(b)) == b
  {
    Powers();
    NumberOfBytes(b.size, 4);
    assert HeaderBytes(b)[1..] == Bytes(b.size, 4);
  }

  /** What becomes of header b when header w is written d bytes before it: its
      first bytes are the last ones of w. */
  function Smeared(w: Block, b: Block, d: nat): Block
    requires 1 <= d < HEADER
  {
    ReadHeader(HeaderBytes(w)[d..] + HeaderBytes(b)[HEADER - d..])
  }

  /** The bytes of a header whose size has wrapped are all but the first 0xff or
      near it, so that the header behind it becomes that of a used block, with
      the low 4 - d bytes of its size set to 0xff. */
  lemma SmearedIs(b: Block, d: nat)
    requires 1 <= d < HEADER && b.size < 0x1_0000_0000
    ensures Smeared(Block(false, 0xffff_fffb + d), b, d) ==
      Block(true, if d == 4 then b.size
                  else if d == 3 then b.size / 0x100 * 0x100 + 0xff
                  else if d == 2 then b.size / 0x1_0000 * 0x1_0000 + 0xffff
                  else b.size / 0x100_0000 * 0x100_0000 + 0xff_ffff)
  {
    hide HeaderBytes, Number;
    var s := SmearedBytes(b, d);
    assert s[1..] == [s[1], s[2], s[3], s[4]];
    FourNumber(s[1], s[2], s[3], s[4]);
    HighBytes(b.size);
  }

  lemma SmearedBytes(b: Block, d: nat) returns (s: seq<Byte>)
    requires 1 <= d < HEADER
    ensures |s| == HEADER && s == HeaderBytes(Block(false, 0xffff_fffb + d))[d..] + HeaderBytes(b)[HEADER - d..]
    ensures s[0] != 0
    ensures var n := b.size;
      && s[4] == n / 0x100_0000 % 256
      && s[3] == (if d >= 2 then n / 0x1_0000 % 256 else 0xff)
      && s[2] == (if d >= 3 then n / 0x100 % 256 else 0xff)
      && s[1] == (if d >= 4 then n % 256 else 0xff)
  {
    hide Bytes;
    var w := Block(false, 0xffff_fffb + d);
    WrappedBytes(d);
    FourBytes(b.size);
    s := HeaderBytes(w)[d..] + HeaderBytes(b)[HEADER - d..];
  }

  lemma WrappedBytes(d: nat)
    requires 1 <= d < HEADER
    ensures Bytes(0xffff_fffb + d, 4) == [0xfb + d, 0xff, 0xff, 0xff]
  {
    FourBytes(0xffff_fffb + d);
  }

  lemma HighBytes(n: nat)
    requires n < 0x1_0000_0000
    ensures n == n % 256 + 0x100 * (n / 0x100 % 256) + 0x1_0000 * (n / 0x1_0000 % 256) + 0x100_0000 * (n / 0x100_0000 % 256)
    ensures n / 0x100 * 0x100 == 0x100 * (n / 0x100 % 256) + 0x1_0000 * (n / 0x1_0000 % 256) + 0x100_0000 * (n / 0x100_0000 % 256)
    ensures n / 0x1_0000 * 0x1_0000 == 0x1_0000 * (n / 0x1_0000 % 256) + 0x100_0000 * (n / 0x100_0000 % 256)
    ensures n / 0x100_0000 * 0x100_0000 == 0x100_0000 * (n / 0x100_0000 % 256)
  {
    assert n / 0x100_0000 < 256;
    assert n / 0x1_0000 == 256 * (n / 0x100_0000) + n / 0x1_0000 % 256;
    assert n / 0x100 == 256 * (n / 0x1_0000) + n / 0x100 % 256;
  }

  lemma FourBytes(n: nat)
    ensures Bytes(n, 4) == [n % 256, n / 0x100 % 256, n / 0x1_0000 % 256, n / 0x100_0000 % 256]
  {
    assert Bytes(n / 0x100_0000, 1) == [n / 0x100_0000 % 256] + Bytes(n / 0x100_0000 / 256, 0);
    assert Bytes(n / 0x1_0000, 2) == [n / 0x1_0000 % 256] + Bytes(n / 0x1_0000 / 256, 1);
    assert Bytes(n / 0x100, 3) == [n / 0x100 % 256] + Bytes(n / 0x100 / 256, 2);
    assert n / 0x100 / 256 == n / 0x1_0000 && n / 0x1_0000 / 256 == n / 0x100_0000;
  }

  lemma FourNumber(a: Byte, b: Byte, c: Byte, d: Byte)
    ensures Number([a, b, c, d]) == a + 0x100 * b + 0x1_0000 * c + 0x100_0000 * d
  {
    assert [a, b, c, d][1..] == [b, c, d] && [b, c, d][1..] == [c, d] && [c, d][1..] == [d] && [d][1..] == [];
    assert Number([d]) == d;
    assert Number([c, d]) == c + 256 * d;
    assert Number([b, c, d]) == b + 256 * Number([c, d]);
  }

  /** What is left when the size of the rest wraps. The block at o has shrunk to
      the request. Behind it stands a free header of nearly 4 GiB, unless the
      heap ends there. Since fewer than five bytes are to spare, its bytes
      replace the next header or reach into it; headers further away stay. */
  ghost predicate Overwritten(m: seq<Block>, m': seq<Block>, blockSize: nat, size: nat, o: nat) {
    var h, next := o + size + HEADER, o + blockSize + HEADER;
    && |m'| == |m| && o < |m| && m'[o] == Block(true, size)
    && (h < |m| ==> m'[h] == Block(false, Sub32(blockSize, size + HEADER)))
    && (h < next < |m| && next < h + HEADER ==>
          m'[next] == Smeared(Block(false, Sub32(blockSize, size + HEADER)), m[next], next - h))
    && forall a :: 0 <= a < |m| && a != o && (a + HEADER <= h || h + HEADER <= a) ==> m'[a] == m[a]
  }

  /** The size of the rest wraps, and its header falls inside the heap. */
  ghost predicate Breaks(bs: seq<Block>, size: nat, i: nat, j: nat) {
    Wraps(bs, i, j) && Offset(bs, i) + size + HEADER < Total(bs)
  }

  /** Every tiling of a memory that agrees with m up to header i begins with
      the blocks of m. */
  lemma {:induction false} SamePrefix(m: seq<Block>, m': seq<Block>, bs: seq<Block>, cs: seq<Block>, i: nat, k: nat)
    requires Tiles(m, bs) && Tiles(m', cs) && |m'| == |m| && k <= i < |bs|
    requires forall a :: 0 <= a < |m| && a + HEADER <= Offset(bs, i) ==> m'[a] == m[a]
    ensures k < |cs| && Offset(cs, k) == Offset(bs, k)
    ensures forall n :: 0 <= n < k ==> cs[n] == bs[n]
  {
    hide Tiles, Total;
    if k == 0 {
      assert bs[..0] == [] && cs[..0] == [];
      TilesOffset(m', cs, 0);
      TilesOffset(m, bs, 0);
      NonEmpty(m', cs);
    } else {
      SamePrefix(m, m', bs, cs, i, k - 1);
      TilesOffset(m, bs, k - 1);
      TilesOffset(m', cs, k - 1);
      OffsetMonotone(bs, k - 1, i);
      TilesOffset(m, bs, k);
      TilesOffset(m', cs, k);
    }
  }

  lemma NonEmpty(m: seq<Block>, bs: seq<Block>)
    requires Tiles(m, bs)
    ensures bs != []
  {
  }

  /** When the size of the rest wraps, the headers still tile the heap exactly
      if the block was the last one and is taken in full: then its rest lies
      behind the heap. */
  lemma WrapBreaks(m: seq<Block>, m': seq<Block>, bs: seq<Block>, size: nat, i: nat)
    requires Tiles(m, bs) && Wraps(bs, i, i + 1) && size <= bs[i].size && |m| < 0x1_0000_0000
    requires Overwritten(m, m', bs[i].size, size, Offset(bs, i))
    ensures (exists cs :: Tiles(m', cs)) <==> Offset(bs, i) + size + HEADER == |m|
    ensures Offset(bs, i) + size + HEADER == |m| ==> Tiles(m', Allocate(bs, size, i, i + 1))
  {
    hide Tiles, Total, Merged, Allocate;
    var o := Offset(bs, i);
    TilesOffset(m, bs, i);
    TilesOffset(m, bs, i + 1);
    MergedOne(bs, i);
    if o + size + HEADER == |m| {
      TilesFlag(m, bs, i, true);
      AllocateCases(bs, size, i, i + 1);
      LastBlock(m, m', bs, i);
    } else {
      forall cs | Tiles(m', cs)
        ensures false
      {
        TilesTotal(m', cs);
        SamePrefix(m, m', bs, cs, i, i);
        TilesOffset(m', cs, i);
        TilesOffset(m', cs, i + 1);
        RestTooLarge(bs[i].size, size);
        if i + 1 < |cs| {
          TilesOffset(m', cs, i + 2);
        }
      }
    }
  }

  lemma TilesTotal(m: seq<Block>, bs: seq<Block>)
    requires Tiles(m, bs)
    ensures Total(bs) == |m|
  {
  }

  lemma RestTooLarge(blockSize: nat, size: nat)
    requires size <= blockSize < HEADER
    ensures Sub32(blockSize, size + HEADER) >= 0xffff_fffb
  {
  }

  /** Taking the last block in full: only its header has changed. */
  lemma LastBlock(m: seq<Block>, m': seq<Block>, bs: seq<Block>, i: nat)
    requires Tiles(m, bs) && i < |bs| && |m'| == |m| && Offset(bs, i) + bs[i].size + HEADER == |m|
    requires Tiles(m[Offset(bs, i) := bs[i].(used := true)], bs[i := bs[i].(used := true)])
    requires m'[Offset(bs, i)] == bs[i].(used := true)
    requires forall a :: 0 <= a < |m| && a + HEADER <= Offset(bs, i) ==> m'[a] == m[a]
    ensures Tiles(m', bs[i := bs[i].(used := true)])
  {
    hide Total;
    var bs' := bs[i := bs[i].(used := true)];
    TilesOffset(m, bs, i);
    TilesOffset(m, bs, i + 1);
    forall k | 0 <= k < |bs'|
      ensures HeaderAt(m', bs', k)
    {
      FlagOffset(bs, i, true, k);
      TilesOffset(m, bs, k);
      if k < i {
        OffsetMonotone(bs, k, i);
      }
    }
  }

  lemma AllocateCases(bs: seq<Block>, size: nat, i: nat, j: nat)
    requires i < j <= |bs| && Merged(bs, i, j) - HEADER <= size
    ensures Allocate(bs, size, i, j) == bs[i := bs[i].(used := true)]
  {
  }

  /** The heap between heap_start and heap_end: cell a holds the header that
      starts at heap_start + a, if one does. */
  class Heap {
    const mem: array<Block>
    ghost var blocks: seq<Block>

    ghost predicate Valid()
      reads this, mem
    {
      Tiles(mem[..], blocks) && mem.Length < 0x1_0000_0000
    }

    /** `kheap_init`: one free block. */
    constructor (bytes: nat)
      requires HEADER <= bytes < 0x1_0000_0000
      ensures Valid() && fresh(mem) && mem.Length == bytes
      ensures blocks == [Block(false, bytes - HEADER)]
    {
      mem := new Block[bytes](_ => Block(false, 0));
      blocks := [Block(false, bytes - HEADER)];
      new;
      mem[0] := Block(false, bytes - HEADER);
      assert Offset(blocks, 0) == 0;
      assert blocks[..0] == [];
    }

    /** `kmalloc`: first fit over merged runs of free blocks; None is the
        growth path. The pointer is an offset from heap_start. The headers still
        tile the heap afterwards unless the size of the rest wraps and its header
        falls inside the heap. */
    method Kmalloc(size: nat) returns (ptr: Option<nat>, ghost intact: bool)
      requires Valid()
      modifies this`blocks, mem
      ensures intact ==> Valid()
      ensures intact <==> exists cs :: Tiles(mem[..], cs)
      ensures ptr == None <==> NoFit(old(blocks), size)
      ensures ptr == None ==> intact && blocks == old(blocks)
      ensures ptr.Some? ==> exists i: nat, j: nat ::
        && FirstFit(old(blocks), size, i) && StopsAt(old(blocks), size, i, j)
        && ptr == Some(Offset(old(blocks), i) + HEADER)
        && (intact <==> !Breaks(old(blocks), size, i, j))
        && (intact ==> blocks == Allocate(old(blocks), size, i, j))
        && (Wraps(old(blocks), i, j) ==>
              Overwritten(old(mem[..]), mem[..], old(blocks)[i].size, size, Offset(old(blocks), i)))
    {
      hide Total, Merged, Tiles, NoFitBefore, FirstFit, Allocate, Overwritten, Breaks;
      intact := true;
      ghost var bs := blocks;
      ghost var k := 0;
      NoFitAtStart(bs, size);
      var curr := 0;
      while true
        invariant k <= |bs| && curr == Offset(bs, k)
        invariant blocks == bs && mem[..] == old(mem[..])
        invariant NoFitBefore(bs, size, k) && (k > 0 ==> bs[k - 1].used)
        decreases |bs| - k
      {
        TilesOffset(mem[..], bs, k);
        if curr >= mem.Length {
          return None, true;
        }
        if mem[curr].used {
          NoFitSkip(bs, size, k);
          curr := curr + mem[curr].size + HEADER;
          k := k + 1;
        } else if mem[curr].size >= size {
          MergedOne(bs, k);
          StopIsFirstFit(bs, size, k, k + 1);
          Take(size, curr, mem[curr].size, k, k + 1);
          return Some(curr + HEADER), !Breaks(bs, size, k, k + 1);
        } else {
          var merged: nat := mem[curr].size;
          var next := curr + mem[curr].size + HEADER;
          ghost var j := k + 1;
          MergedOne(bs, k);
          TilesOffset(mem[..], bs, j);
          while next < mem.Length && !mem[next].used
            invariant k < j <= |bs| && next == Offset(bs, j)
            invariant merged == Merged(bs, k, j) < size
            invariant forall n :: k <= n < j ==> !bs[n].used
            invariant blocks == bs && mem[..] == old(mem[..])
            decreases |bs| - j
          {
            TilesOffset(mem[..], bs, j);
            MergedStep(bs, k, j);
            merged := merged + mem[next].size + HEADER;
            if merged >= size {
              StopIsFirstFit(bs, size, k, j + 1);
              Take(size, curr, merged, k, j + 1);
              return Some(curr + HEADER), !Breaks(bs, size, k, j + 1);
            }
            next := next + mem[next].size + HEADER;
            j := j + 1;
          }
          TilesOffset(mem[..], bs, j);
          assert MaximalRun(bs, k, j);
          NoFitOver(bs, size, k, j);
          if next >= mem.Length {
            return None, true;
          }
          curr := next + mem[next].size + HEADER;
          k := j + 1;
        }
      }
    }

    /** Marks the block at `curr` used and splits off the rest of the `merged`
        payload bytes when, by unsigned arithmetic, it is larger than a header. */
    method Take(size: nat, curr: nat, merged: nat, ghost i: nat, ghost j: nat)
      requires Valid() && i < j <= |blocks| && curr == Offset(blocks, i) && curr < mem.Length
      requires size <= merged == Merged(blocks, i, j)
      modifies this`blocks, mem
      ensures Wraps(old(blocks), i, j) ==> Overwritten(old(mem[..]), mem[..], merged, size, curr)
      ensures !Breaks(old(blocks), size, i, j) ==> Valid() && blocks == Allocate(old(blocks), size, i, j)
      ensures !Breaks(old(blocks), size, i, j) <==> exists cs :: Tiles(mem[..], cs)
    {
      hide Tiles, Total, Merged, Allocate, Sub64, Sub32, Smeared, Overwritten;
      ghost var bs, m := blocks, mem[..];
      TilesOffset(m, bs, i);
      MergedFits(m, bs, i, j);
      MergedOne(bs, i);
      Subtractions(merged, size);
      TilesTotal(m, bs);
      if Sub64(merged, HEADER) > size {
        mem[curr] := Block(true, size);
        WriteRest(curr + size + HEADER, Sub32(merged, size + HEADER), curr + merged + HEADER);
        if merged >= HEADER {
          TilesSplit(m, bs, size, i, j);
          assert mem[..] == m[curr := Block(true, size)][curr + size + HEADER := Block(false, merged - HEADER - size)];
        } else {
          WrapWritten(m, mem[..], merged, size, curr);
          WrapBreaks(m, mem[..], bs, size, i);
        }
      } else {
        TilesFlag(m, bs, i, true);
        mem[curr] := mem[curr].(used := true);
        assert mem[..] == m[curr := bs[i].(used := true)];
        AllocateCases(bs, size, i, j);
      }
      blocks := Allocate(bs, size, i, j);
    }

    /** Writes the free header at h, as far as that lies in the heap; `next` is
        where the block that follows has its header. */
    method WriteRest(h: nat, size: nat, next: nat)
      requires h <= next <= mem.Length
      modifies mem
      ensures forall a :: 0 <= a < mem.Length ==> mem[a] == Rewritten(old(mem[..]), h, size, next, a)
    {
      if h < mem.Length {
        mem[h] := Block(false, size);
        if h < next < mem.Length && next < h + HEADER {
          mem[next] := Smeared(Block(false, size), mem[next], next - h);
        }
      }
    }

    /** What cell a holds then. */
    static ghost function Rewritten(m: seq<Block>, h: nat, size: nat, next: nat, a: nat): Block
      requires a < |m|
    {
      if a == h then Block(false, size)
      else if a == next && h < next < h + HEADER then Smeared(Block(false, size), m[a], next - h)
      else m[a]
    }

    static lemma WrapWritten(m: seq<Block>, m': seq<Block>, blockSize: nat, size: nat, o: nat)
      requires |m'| == |m| && o < |m| && size <= blockSize < HEADER
      requires var h, next := o + size + HEADER, o + blockSize + HEADER;
        forall a :: 0 <= a < |m| ==>
          m'[a] == Rewritten(m[o := Block(true, size)], h, Sub32(blockSize, size + HEADER), next, a)
      ensures Overwritten(m, m', blockSize, size, o)
    {
      hide Smeared, Sub32;
    }

    /** Only a single block can be smaller than a header. */
    static lemma MergedFits(m: seq<Block>, bs: seq<Block>, i: nat, j: nat)
      requires Tiles(m, bs) && i < j <= |bs| && |m| < 0x1_0000_0000
      ensures Merged(bs, i, j) < 0x1_0000_0000
      ensures Merged(bs, i, j) < HEADER <==> Wraps(bs, i, j)
      ensures Offset(bs, i) + Merged(bs, i, j) + HEADER <= |m|
    {
      hide Tiles, Total, Merged;
      MergedOne(bs, i);
      TilesOffset(m, bs, i);
      TilesOffset(m, bs, j);
      MergedOffsets(bs, i, j);
      if j > i + 1 {
        MergedStep(bs, i, j - 1);
        MergedMonotone(bs, i, i + 1, j - 1);
      }
    }

    static lemma Subtractions(merged: nat, size: nat)
      requires size <= merged < 0x1_0000_0000
      ensures merged < HEADER ==> Sub64(merged, HEADER) > size
      ensures merged >= HEADER ==> Sub64(merged, HEADER) == merged - HEADER
      ensures merged >= size + HEADER ==> Sub32(merged, size + HEADER) == merged - HEADER - size
    {
    }

    /** `kfree`: flips one flag. */
    method Kfree(ptr: nat, ghost i: nat)
      requires Valid() && i < |blocks| && ptr == Offset(blocks, i) + HEADER
      modifies this`blocks, mem
      ensures Valid() && blocks == old(blocks)[i := old(blocks)[i].(used := false)]
    {
      ghost var m := mem[..];
      TilesOffset(m, blocks, i);
      TilesFlag(m, blocks, i, false);
      mem[ptr - HEADER] := mem[ptr - HEADER].(used := false);
      assert mem[..] == m[ptr - HEADER := blocks[i].(used := false)];
      blocks := blocks[i := blocks[i].(used := false)];
    }
  }
}
