/** The initial ramdisk: octal sizes and the walk over a ustar archive. */
module TarArchive {
  import opened Common

  const ZERO: nat := 48                    // '0'
  const SIZE_DIGITS := 11
  const BLOCK := 512
  const HEADER_LIST_SIZE := 5

  // ------------------------------------------------------------- octal numbers

  /** What `c - '0'` is for a char, which is signed on x86-64: bytes from 128 on
      count as negative. */
  function DigitValue(b: Byte): (d: int)
    ensures (d + 48) % 256 == b && -128 <= d + 48 < 128
  {
    (if b < 128 then b else b - 256) - ZERO
  }

  /** The number that octal digits spell, most significant first. */
  function Octal(s: seq<Byte>): int {
    if s == [] then 0 else Octal(s[..|s| - 1]) * 8 + DigitValue(s[|s| - 1])
  }

  /** n as k octal digits. */
  function Digits(n: nat, k: nat): (s: seq<Byte>)
    ensures |s| == k && forall i :: 0 <= i < k ==> 48 <= s[i] < 56
  {
    if k == 0 then [] else Digits(n / 8, k - 1) + [ZERO + n % 8]
  }

  function Power8(k: nat): nat {
    if k == 0 then 1 else 8 * Power8(k - 1)
  }

  /** Decoding is the inverse of encoding. */
  lemma {:induction false} OctalRoundTrip(n: nat, k: nat)
    requires n < Power8(k)
    ensures Octal(Digits(n, k)) == n
  {
    if k > 0 {
      OctalRoundTrip(n / 8, k - 1);
      assert Digits(n, k)[..k - 1] == Digits(n / 8, k - 1);
    }
  }

  lemma {:induction false} OctalPrepend(d: Byte, s: seq<Byte>)
    ensures Octal([d] + s) == DigitValue(d) * Power8(|s|) + Octal(s)
    decreases |s|
  {
    if s == [] {
      assert [d] + s == [d] && [d][..0] == [];
    } else {
      var s' := s[..|s| - 1];
      assert ([d] + s)[..|s|] == [d] + s';
      OctalPrepend(d, s');
      assert Power8(|s|) == 8 * Power8(|s'|);
      assert DigitValue(d) * Power8(|s'|) * 8 == DigitValue(d) * Power8(|s|);
    }
  }

  /** get_file_size: the eleven digits from the last to the first, in 64-bit
      unsigned arithmetic. */
  method GetFileSize(field: seq<Byte>) returns (size: nat)
    requires |field| >= SIZE_DIGITS
    ensures size == Octal(field[..SIZE_DIGITS]) % 0x1_0000_0000_0000_0000
  {
    size := 0;
    var j := SIZE_DIGITS;
    var count := 1;
    assert field[SIZE_DIGITS..SIZE_DIGITS] == [];
    while j > 0
      invariant 0 <= j <= SIZE_DIGITS
      invariant count == Power8(SIZE_DIGITS - j)
      invariant size == Octal(field[j..SIZE_DIGITS]) % 0x1_0000_0000_0000_0000
    {
      assert field[j - 1..SIZE_DIGITS] == [field[j - 1]] + field[j..SIZE_DIGITS];
      OctalPrepend(field[j - 1], field[j..SIZE_DIGITS]);
      ReduceLate(Octal(field[j..SIZE_DIGITS]), DigitValue(field[j - 1]) * count);
      size := (size + DigitValue(field[j - 1]) * count) % 0x1_0000_0000_0000_0000;
      j := j - 1;
      count := count * 8;
    }
    assert field[0..SIZE_DIGITS] == field[..SIZE_DIGITS];
  }

  lemma ReduceLate(a: int, b: int)
    ensures (a % 0x1_0000_0000_0000_0000 + b) % 0x1_0000_0000_0000_0000 == (a + b) % 0x1_0000_0000_0000_0000
  {
  }

  lemma SizeBound()
    ensures Power8(SIZE_DIGITS) == 0x2_0000_0000
  {
    assert Power8(1) == 8 && Power8(2) == 64 && Power8(3) == 512 && Power8(4) == 4096;
    assert Power8(5) == 0x8000 && Power8(6) == 0x4_0000 && Power8(7) == 0x20_0000 && Power8(8) == 0x100_0000;
    assert Power8(9) == 0x800_0000 && Power8(10) == 0x4000_0000;
  }

  // ------------------------------------------------------------------ archives

  /** tar_header_t; the fields behind the size are not looked at. */
  datatype Header = Header(filename: seq<Byte>, mode: seq<Byte>, uid: seq<Byte>, gid: seq<Byte>, size: seq<Byte>,
                           rest: seq<Byte>)

  /** The field widths ("ustar Interchange Format", pax utility, IEEE Std 1003.1). */
  ghost predicate ValidHeader(h: Header) {
    && |h.filename| == 100 && |h.mode| == 8 && |h.uid| == 8 && |h.gid| == 8 && |h.size| == 12 && |h.rest| == 376
  }

  ghost function HeaderBlock(h: Header): seq<Byte> {
    h.filename + h.mode + h.uid + h.gid + h.size + h.rest
  }

  /** Where the fields lie in the block. */
  lemma HeaderLayout(h: Header)
    requires ValidHeader(h)
    ensures var b := HeaderBlock(h);
      |b| == BLOCK && b[0] == h.filename[0] && b[124..135] == h.size[..SIZE_DIGITS]
  {
    var a := h.filename + h.mode + h.uid + h.gid;
    assert HeaderBlock(h) == a + (h.size + h.rest) && |a| == 124;
    assert (a + (h.size + h.rest))[124..135] == (h.size + h.rest)[..SIZE_DIGITS];
  }

  /** One file: its header and its contents. */
  datatype Member = Member(header: Header, data: seq<Byte>)

  /** The header names the file and gives its size in octal. */
  ghost predicate ValidMember(m: Member) {
    && ValidHeader(m.header) && m.header.filename[0] != 0
    && |m.data| < Power8(SIZE_DIGITS)
    && m.header.size[..SIZE_DIGITS] == Digits(|m.data|, SIZE_DIGITS)
  }

  function Padding(n: nat): (p: nat)
    ensures p < BLOCK && (n + p) % BLOCK == 0
  {
    if n % 512 == 0 then 0 else 512 - n % 512
  }

  ghost function Zeros(n: nat): (s: seq<Byte>)
    ensures |s| == n
  {
    seq(n, _ => 0 as Byte)
  }

  ghost function Block(m: Member): seq<Byte> {
    HeaderBlock(m.header) + m.data + Zeros(Padding(|m.data|))
  }

  /** The files one after another, up to the first block of zeros; the format
      asks for at least one more, and images are padded further. */
  ghost function Archive(ms: seq<Member>): seq<Byte> {
    if ms == [] then Zeros(BLOCK) else Block(ms[0]) + Archive(ms[1..])
  }

  /** Where the header of file i lies. */
  ghost function Offset(ms: seq<Member>, i: nat): nat
    requires i <= |ms|
  {
    if i == 0 then 0 else Offset(ms, i - 1) + |Block(ms[i - 1])|
  }

  lemma {:induction false} ArchiveFrom(ms: seq<Member>, i: nat)
    requires i <= |ms|
    ensures Offset(ms, i) <= |Archive(ms)|
    ensures Archive(ms)[Offset(ms, i)..] == Archive(ms[i..])
  {
    if i == 0 {
      assert ms[0..] == ms;
    } else {
      ArchiveFrom(ms, i - 1);
      var rest := Archive(ms[i - 1..]);
      assert ms[i - 1..][0] == ms[i - 1] && ms[i - 1..][1..] == ms[i..];
      assert rest == Block(ms[i - 1]) + Archive(ms[i..]);
      assert rest[|Block(ms[i - 1])|..] == Archive(ms[i..]);
      assert Archive(ms)[Offset(ms, i)..] == Archive(ms)[Offset(ms, i - 1)..][|Block(ms[i - 1])|..];
    }
  }

  /** What the walk finds at the header of a file, and how far it moves on. */
  lemma HeaderFields(ms: seq<Member>, i: nat)
    requires i < |ms| && ValidMember(ms[i])
    ensures var a, o := Archive(ms), Offset(ms, i);
      && o + BLOCK <= |a| && a[o] != 0
      && Octal(a[o + 124..o + 135]) == |ms[i].data|
      && |ms[i].data| < 0x2_0000_0000
      && Offset(ms, i + 1) == o + (|ms[i].data| / 512 + 1) * 512 + (if |ms[i].data| % 512 != 0 then 512 else 0)
  {
    hide Archive, Octal, Digits, Power8, Padding, HeaderBlock;
    var a, o, m := Archive(ms), Offset(ms, i), ms[i];
    MemberAt(ms, i);
    HeaderLayout(m.header);
    Within(a, o, BLOCK, 124, 135);
    OctalRoundTrip(|m.data|, SIZE_DIGITS);
    SizeBound();
    BlockLength(|m.data|);
  }

  /** A part of a part of the archive. */
  lemma Within(a: seq<Byte>, o: nat, n: nat, i: nat, j: nat)
    requires o + n <= |a| && i <= j <= n && n > 0
    ensures a[o..][..n][0] == a[o] && a[o..][..n][i..j] == a[o + i..o + j]
  {
    var x, y := a[o..][..n][i..j], a[o + i..o + j];
    assert |x| == |y| && forall k :: 0 <= k < |x| ==> x[k] == y[k];
  }

  lemma MemberAt(ms: seq<Member>, i: nat)
    requires i < |ms| && ValidMember(ms[i])
    ensures var a, o := Archive(ms), Offset(ms, i);
      o + BLOCK <= |a| && a[o..][..BLOCK] == HeaderBlock(ms[i].header)
  {
    hide Octal, Digits, Power8, Padding, HeaderBlock, Zeros;
    ArchiveFrom(ms, i);
    HeaderLayout(ms[i].header);
    assert ms[i..][0] == ms[i];
    BlockFirst(ms[i], Archive(ms[i..][1..]));
  }

  lemma BlockFirst(m: Member, after: seq<Byte>)
    requires |HeaderBlock(m.header)| == BLOCK
    ensures |Block(m) + after| >= BLOCK && (Block(m) + after)[..BLOCK] == HeaderBlock(m.header)
  {
    hide HeaderBlock, Zeros, Padding;
    var h, rest := HeaderBlock(m.header), m.data + Zeros(Padding(|m.data|)) + after;
    assert Block(m) + after == h + rest;
    assert (h + rest)[..|h|] == h;
  }

  lemma BlockLength(n: nat)
    ensures BLOCK + n + Padding(n) == (n / 512 + 1) * 512 + (if n % 512 != 0 then 512 else 0)
  {
  }

  lemma InArchive(ms: seq<Member>, i: nat)
    requires i <= |ms| && forall k :: 0 <= k < |ms| ==> ValidMember(ms[k])
    ensures Offset(ms, i) < |Archive(ms)|
  {
    hide Archive, ValidMember;
    if i < |ms| {
      HeaderFields(ms, i);
    } else {
      EndBlock(ms);
    }
  }

  lemma OffsetZero(ms: seq<Member>)
    ensures Offset(ms, 0) == 0 && |Archive(ms)| > 0
  {
    EndBlock(ms);
  }

  lemma EndBlock(ms: seq<Member>)
    ensures Offset(ms, |ms|) + BLOCK == |Archive(ms)| && Archive(ms)[Offset(ms, |ms|)] == 0
  {
    ArchiveFrom(ms, |ms|);
    assert ms[|ms|..] == [];
    assert Archive(ms)[Offset(ms, |ms|)..] == Zeros(BLOCK);
    assert Archive(ms)[Offset(ms, |ms|)] == Archive(ms)[Offset(ms, |ms|)..][0];
  }

  /** parse_tar_file: visits exactly the file headers, in order, and stops at
      the first zero block, whatever follows it. The table has five slots and
      nothing checks the index: with a sixth file the walk is about to write
      behind the table, and there the model stops. */
  method ParseTarFile(image: seq<Byte>, fileHeaders: array<nat>, ghost ms: seq<Member>) returns (count: nat, overflow: bool)
    requires Archive(ms) <= image && forall k :: 0 <= k < |ms| ==> ValidMember(ms[k])
    requires fileHeaders.Length == HEADER_LIST_SIZE
    modifies fileHeaders
    ensures overflow <==> |ms| > 5
    ensures count == if overflow then 5 else |ms|
    ensures forall k :: 0 <= k < count ==> fileHeaders[k] == Offset(ms, k)
    ensures forall k :: count <= k < 5 ==> fileHeaders[k] == old(fileHeaders[k])
  {
    hide Archive, Octal, Digits, Power8, Offset, ValidMember;
    var header, i := 0, 0;
    EndBlock(ms);
    OffsetZero(ms);
    while image[header] != 0
      invariant i <= |ms| && i <= HEADER_LIST_SIZE && header == Offset(ms, i) && header < |Archive(ms)|
      invariant forall k :: 0 <= k < i ==> fileHeaders[k] == Offset(ms, k)
      invariant forall k :: i <= k < HEADER_LIST_SIZE ==> fileHeaders[k] == old(fileHeaders[k])
      decreases |ms| - i
    {
      HeaderFields(ms, i);
      assert image[header + 124..header + 136][..SIZE_DIGITS] == Archive(ms)[header + 124..header + 135];
      var fileSize := GetFileSize(image[header + 124..header + 136]);
      if i == HEADER_LIST_SIZE {
        return i, true;
      }
      fileHeaders[i] := header;
      header := header + (fileSize / 512 + 1) * 512;
      if fileSize % 512 != 0 {
        header := header + 512;
      }
      i := i + 1;
      InArchive(ms, i);
    }
    if i < |ms| {
      HeaderFields(ms, i);
    }
    return i, false;
  }
}
