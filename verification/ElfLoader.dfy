/** `load_elf` over `vfs_read`, `vfs_seek` and `vmm_alloc`. */
module ElfLoader {
  import opened Common
  import opened RegionSpec
  import opened SegmentMemory

  const EHDR_SIZE := 64
  const PHDR_SIZE := 56

  // --------------------------------------------------------------- byte fields

  /** The fields of an elf64_phdr_t that are used. */
  function DecodePhdr(s: seq<Byte>): Phdr
    requires |s| == PHDR_SIZE
  {
    Phdr(Number(s[0..4]), Number(s[8..16]), Number(s[16..24]), Number(s[32..40]), Number(s[40..48]))
  }

  datatype Ehdr = Ehdr(entry: nat, phoff: nat, phnum: nat)

  function DecodeEhdr(s: seq<Byte>): Ehdr
    requires |s| == EHDR_SIZE
  {
    Ehdr(Number(s[24..32]), Number(s[32..40]), Number(s[56..58]))
  }

  // ------------------------------------------- the format, written out in order

  /** All fields of an elf64_phdr_t, in order. */
  datatype PhdrFields = PhdrFields(ptype: nat, flags: nat, offset: nat, vaddr: nat, paddr: nat, filesz: nat,
                                   memsz: nat, align: nat)

  /** They fit their widths: two words of 32 bits, six of 64. */
  predicate InWidth(f: PhdrFields) {
    && f.ptype < 0x1_0000_0000 && f.flags < 0x1_0000_0000
    && Fits64(f.offset) && Fits64(f.vaddr) && Fits64(f.paddr) && Fits64(f.filesz) && Fits64(f.memsz) && Fits64(f.align)
  }

  predicate Fits64(n: nat) { n < 0x1_0000_0000_0000_0000 }

  function EncodePhdr(f: PhdrFields): (s: seq<Byte>)
    ensures |s| == 56
  {
    Bytes(f.ptype, 4) + Bytes(f.flags, 4) + Bytes(f.offset, 8) + Bytes(f.vaddr, 8) + Bytes(f.paddr, 8)
    + Bytes(f.filesz, 8) + Bytes(f.memsz, 8) + Bytes(f.align, 8)
  }

  /** All fields of an elf64_ehdr_t, in order. */
  datatype EhdrFields = EhdrFields(ident: seq<Byte>, etype: nat, machine: nat, version: nat, entry: nat, phoff: nat,
                                   shoff: nat, flags: nat, ehsize: nat, phentsize: nat, phnum: nat, shentsize: nat,
                                   shnum: nat, shstrndx: nat)

  function EncodeEhdr(f: EhdrFields): (s: seq<Byte>)
    requires |f.ident| == 16
    ensures |s| == 64
  {
    f.ident + Bytes(f.etype, 2) + Bytes(f.machine, 2) + Bytes(f.version, 4) + Bytes(f.entry, 8) + Bytes(f.phoff, 8)
    + Bytes(f.shoff, 8) + Bytes(f.flags, 4) + Bytes(f.ehsize, 2) + Bytes(f.phentsize, 2) + Bytes(f.phnum, 2)
    + Bytes(f.shentsize, 2) + Bytes(f.shnum, 2) + Bytes(f.shstrndx, 2)
  }

  /** A middle part of a concatenation. */
  lemma Middle(a: seq<Byte>, b: seq<Byte>, c: seq<Byte>)
    ensures (a + b + c)[|a|..|a| + |b|] == b
  {
  }

  /** Decoding a program header gives back the fields it was written from. */
  lemma PhdrRoundTrip(f: PhdrFields)
    requires InWidth(f)
    ensures |EncodePhdr(f)| == PHDR_SIZE
    ensures DecodePhdr(EncodePhdr(f)) == Phdr(f.ptype, f.offset, f.vaddr, f.filesz, f.memsz)
  {
    hide Bytes, Number, Power256;
    Powers();
    var t, g, o, v, p, z, m, l := Bytes(f.ptype, 4), Bytes(f.flags, 4), Bytes(f.offset, 8), Bytes(f.vaddr, 8),
      Bytes(f.paddr, 8), Bytes(f.filesz, 8), Bytes(f.memsz, 8), Bytes(f.align, 8);
    var s := EncodePhdr(f);
    NumberOfBytes(f.ptype, 4);
    NumberOfBytes(f.offset, 8);
    NumberOfBytes(f.vaddr, 8);
    NumberOfBytes(f.filesz, 8);
    NumberOfBytes(f.memsz, 8);
    PhdrSlices(t, g, o, v, p, z, m, l);
  }

  lemma PhdrSlices(t: seq<Byte>, g: seq<Byte>, o: seq<Byte>, v: seq<Byte>, p: seq<Byte>, z: seq<Byte>, m: seq<Byte>,
                   l: seq<Byte>)
    requires |t| == 4 && |g| == 4 && |o| == 8 && |v| == 8 && |p| == 8 && |z| == 8 && |m| == 8 && |l| == 8
    ensures var s := t + g + o + v + p + z + m + l;
      && |s| == 56 && s[0..4] == t && s[8..16] == o && s[16..24] == v && s[32..40] == z && s[40..48] == m
  {
    var s := t + g + o + v + p + z + m + l;
    assert s == [] + t + (g + o + v + p + z + m + l);
    Middle([], t, g + o + v + p + z + m + l);
    assert s == (t + g) + o + (v + p + z + m + l);
    Middle(t + g, o, v + p + z + m + l);
    assert s == (t + g + o) + v + (p + z + m + l);
    Middle(t + g + o, v, p + z + m + l);
    assert s == (t + g + o + v + p) + z + (m + l);
    Middle(t + g + o + v + p, z, m + l);
    Middle(t + g + o + v + p + z, m, l);
  }

  /** Decoding a file header gives back its entry point, the place of its program
      headers and their number. */
  lemma EhdrRoundTrip(f: EhdrFields)
    requires |f.ident| == 16 && Fits64(f.entry) && Fits64(f.phoff) && f.phnum < 0x1_0000
    ensures |EncodeEhdr(f)| == EHDR_SIZE
    ensures DecodeEhdr(EncodeEhdr(f)) == Ehdr(f.entry, f.phoff, f.phnum)
  {
    hide Bytes, Number, Power256;
    Powers();
    NumberOfBytes(f.entry, 8);
    NumberOfBytes(f.phoff, 8);
    NumberOfBytes(f.phnum, 2);
    var a := f.ident + Bytes(f.etype, 2) + Bytes(f.machine, 2) + Bytes(f.version, 4);
    var b := Bytes(f.shoff, 8) + Bytes(f.flags, 4) + Bytes(f.ehsize, 2) + Bytes(f.phentsize, 2);
    var c := Bytes(f.shentsize, 2) + Bytes(f.shnum, 2) + Bytes(f.shstrndx, 2);
    EhdrParts(f, a, b, c);
    EhdrSlices(a, Bytes(f.entry, 8), Bytes(f.phoff, 8), b, Bytes(f.phnum, 2), c);
  }

  lemma EhdrParts(f: EhdrFields, a: seq<Byte>, b: seq<Byte>, c: seq<Byte>)
    requires |f.ident| == 16
    requires a == f.ident + Bytes(f.etype, 2) + Bytes(f.machine, 2) + Bytes(f.version, 4)
    requires b == Bytes(f.shoff, 8) + Bytes(f.flags, 4) + Bytes(f.ehsize, 2) + Bytes(f.phentsize, 2)
    requires c == Bytes(f.shentsize, 2) + Bytes(f.shnum, 2) + Bytes(f.shstrndx, 2)
    ensures EncodeEhdr(f) == a + Bytes(f.entry, 8) + Bytes(f.phoff, 8) + b + Bytes(f.phnum, 2) + c
  {
    hide Bytes;
  }

  lemma EhdrSlices(a: seq<Byte>, e: seq<Byte>, p: seq<Byte>, b: seq<Byte>, n: seq<Byte>, c: seq<Byte>)
    requires |a| == 24 && |e| == 8 && |p| == 8 && |b| == 16 && |n| == 2 && |c| == 6
    ensures var s := a + e + p + b + n + c;
      |s| == 64 && s[24..32] == e && s[32..40] == p && s[56..58] == n
  {
    var s := a + e + p + b + n + c;
    assert s == a + e + (p + b + n + c);
    Middle(a, e, p + b + n + c);
    assert s == (a + e) + p + (b + n + c);
    Middle(a + e, p, b + n + c);
    Middle(a + e + p + b, n, c);
  }

  // ------------------------------------------------------ what the file demands

  lemma InFile(e: Ehdr, i: nat, n: nat)
    requires e.phoff + e.phnum * PHDR_SIZE <= n && i < e.phnum
    ensures e.phoff + (i + 1) * PHDR_SIZE <= n
  {
  }

  /** The program header i that the file header announces. */
  ghost function PhdrAt(file: seq<Byte>, e: Ehdr, i: nat): Phdr
    requires e.phoff + e.phnum * PHDR_SIZE <= |file| && i < e.phnum
  {
    InFile(e, i, |file|);
    DecodePhdr(file[e.phoff + i * PHDR_SIZE..e.phoff + (i + 1) * PHDR_SIZE])
  }

  ghost function Phdrs(file: seq<Byte>, e: Ehdr): (hs: seq<Phdr>)
    requires e.phoff + e.phnum * PHDR_SIZE <= |file|
    ensures |hs| == e.phnum
    ensures forall i :: 0 <= i < e.phnum ==> hs[i] == PhdrAt(file, e, i)
  {
    seq(e.phnum, i requires 0 <= i < e.phnum => PhdrAt(file, e, i))
  }

  /** The headers and the file parts lie inside the image, positions fit an int
      and addresses do not wrap. */
  ghost predicate Readable(file: seq<Byte>, e: Ehdr) {
    && EHDR_SIZE <= |file| < 0x8000_0000
    && e == DecodeEhdr(file[..EHDR_SIZE])
    && e.phoff + e.phnum * PHDR_SIZE <= |file|
    && InImage(file, Phdrs(file, e))
    && forall i :: 0 <= i < e.phnum ==> TouchEnd(Phdrs(file, e)[i]) < 0x1_0000_0000_0000_0000
  }

  /** The file is written from these headers. */
  ghost predicate WrittenFrom(file: seq<Byte>, e: EhdrFields, ps: seq<PhdrFields>) {
    && |e.ident| == 16 && Fits64(e.entry) && Fits64(e.phoff) && e.phnum < 0x1_0000
    && |ps| == e.phnum && (forall i :: 0 <= i < |ps| ==> InWidth(ps[i]))
    && 64 <= |file| && file[..64] == EncodeEhdr(e) && e.phoff + e.phnum * 56 <= |file|
    && forall i :: 0 <= i < |ps| ==> PhdrWritten(file, e.phoff, i, ps[i])
  }

  ghost predicate PhdrWritten(file: seq<Byte>, phoff: nat, i: nat, f: PhdrFields) {
    phoff + (i + 1) * 56 <= |file| && file[phoff + i * 56..phoff + (i + 1) * 56] == EncodePhdr(f)
  }

  /** What the loader reads from such a file. */
  lemma HeadersRead(file: seq<Byte>, e: EhdrFields, ps: seq<PhdrFields>)
    requires WrittenFrom(file, e, ps)
    ensures |file| >= EHDR_SIZE && DecodeEhdr(file[..EHDR_SIZE]) == Ehdr(e.entry, e.phoff, e.phnum)
    ensures var eh := Ehdr(e.entry, e.phoff, e.phnum);
      && eh.phoff + eh.phnum * PHDR_SIZE <= |file|
      && forall i :: 0 <= i < |ps| ==>
           Phdrs(file, eh)[i] == Phdr(ps[i].ptype, ps[i].offset, ps[i].vaddr, ps[i].filesz, ps[i].memsz)
  {
    hide EncodeEhdr, EncodePhdr, DecodePhdr, DecodeEhdr, InWidth;
    EhdrRoundTrip(e);
    forall i | 0 <= i < |ps|
      ensures Phdrs(file, Ehdr(e.entry, e.phoff, e.phnum))[i] ==
              Phdr(ps[i].ptype, ps[i].offset, ps[i].vaddr, ps[i].filesz, ps[i].memsz)
    {
      assert PhdrWritten(file, e.phoff, i, ps[i]);
      PhdrRoundTrip(ps[i]);
    }
  }

  /** A program of one segment of type 1, of 16 bytes in the file and two pages in
      memory, in a new space: two pages are mapped, the 16 bytes are those of the
      file, and the next one is what the new frame held. */
  lemma OneSegment(sp: Space, file: seq<Byte>, e: EhdrFields, f: PhdrFields, kernelBytes: nat)
    requires WrittenFrom(file, e, [f]) && f.ptype == 1 && f.vaddr == 0x400000 && f.filesz == 0x10 && f.memsz == 0x2000
    requires f.offset + 0x10 <= |file| && Sound(sp) && Untouched(sp) && sp.regions == NewRegions(kernelBytes)
    requires |sp.free| >= 2 && !Mapped(sp, 0x400000) && !Mapped(sp, 0x401000)
    ensures |file| >= EHDR_SIZE
    ensures var eh := DecodeEhdr(file[..EHDR_SIZE]);
      && eh.entry == e.entry && eh.phoff + eh.phnum * PHDR_SIZE <= |file| && InImage(file, Phdrs(file, eh))
      && var r := LoadAll(sp, file, Phdrs(file, eh), |Phdrs(file, eh)|);
         && |Phdrs(file, eh)| == 1 && r.Running? && Mapped(r.sp, 0x400000) && Mapped(r.sp, 0x401fff)
         && r.sp.free == sp.free[2..]
         && (forall a :: 0x400000 <= a < 0x400010 ==>
               Mapped(r.sp, a) && At(r.sp, a) == Cell(file[f.offset + (a - 0x400000)], Some(0)))
         && Mapped(r.sp, 0x400010) && At(r.sp, 0x400010) == sp.ram[sp.free[0]][0x10]
  {
    hide WrittenFrom, EncodeEhdr, EncodePhdr, DecodePhdr, DecodeEhdr, LoadSegment, Sound, At, Untouched, Place;
    HeadersRead(file, e, [f]);
    OneHeader(file, e, f);
    var eh := Ehdr(e.entry, e.phoff, e.phnum);
    var h := Phdr(1, f.offset, 0x400000, 0x10, 0x2000);
    assert Phdrs(file, eh) == [h];
    OnePlace(sp, h, kernelBytes);
    SegmentEffect(sp, file, h, 0, 0x400000);
    OneLoad(sp, file, h);
    OneCells(sp, file, h);
  }

  lemma OneHeader(file: seq<Byte>, e: EhdrFields, f: PhdrFields)
    requires WrittenFrom(file, e, [f])
    ensures e.phnum == 1
  {
  }

  lemma OnePlace(sp: Space, h: Phdr, kernelBytes: nat)
    requires sp.regions == NewRegions(kernelBytes) && h.vaddr == 0x400000 && h.memsz == 0x2000 && h.ptype == 1
    ensures Start(h) == 0x400000 && Length(h) == 0x2000 && Pages(h) == 2
    ensures Place(sp.regions, 0x400000, 0x2000) == Some((0, 0x400000)) && FoundIn(Some(sp.regions), h) == 0x400000
  {
    assert sp.regions[0] == Extent(0, 0) && sp.regions[1].base == KERNEL_TEXT_START;
    assert StopFrom(sp.regions, 0x400000, 0) == 0;
  }

  lemma OneLoad(sp: Space, file: seq<Byte>, h: Phdr)
    requires Sound(sp) && sp.regions != [] && InImage(file, [h]) && h.offset + h.filesz <= |file|
    ensures LoadAll(sp, file, [h], 1) == LoadSegment(sp, file, h, 0)
  {
    hide LoadSegment;
    assert LoadAll(sp, file, [h], 0) == Running(sp);
  }

  lemma OneCells(sp: Space, file: seq<Byte>, h: Phdr)
    requires Sound(sp) && h.ptype == 1 && h.vaddr == 0x400000 && h.filesz == 0x10 && h.memsz == 0x2000
    requires h.offset + 0x10 <= |file| && |sp.free| >= 2 && Pages(h) == 2
    ensures forall a: nat :: 0x400000 <= a < 0x402000 ==> Maps(h, 0x400000, a)
    ensures forall a: nat :: Covers(h, a) ==> Maps(h, 0x400000, a)
    ensures forall a: nat :: 0x400000 <= a < 0x400010 ==>
      Next(sp, file, h, 0x400000, 0, a) == Cell(file[h.offset + (a - 0x400000)], Some(0))
    ensures Next(sp, file, h, 0x400000, 0, 0x400010) == sp.ram[sp.free[0]][0x10]
  {
  }

  // ---------------------------------------------------------------- the loader

  /** An entry of vfs_opened_files, over the memory that begins with its file. */
  class OpenFile {
    const buffer: seq<Byte>
    var readPos: nat

    constructor (buffer: seq<Byte>)
      ensures this.buffer == buffer && readPos == 0
    {
      this.buffer, readPos := buffer, 0;
    }

    /** vfs_read: no test against the file size. */
    method Read(n: nat) returns (bytes: seq<Byte>)
      requires readPos + n <= |buffer| < 0x8000_0000
      modifies this
      ensures bytes == buffer[old(readPos)..old(readPos) + n] && readPos == old(readPos) + n
    {
      bytes := buffer[readPos..readPos + n];
      readPos := readPos + n;
    }

    /** vfs_seek */
    method Seek(pos: nat)
      requires pos < 0x8000_0000
      modifies this
      ensures readPos == pos
    {
      readPos := pos;
    }
  }

  /** How a call ends: with the entry point, in a PANIC, in a page fault, or
      without a frame for the next page. */
  datatype LoadResult = Entry(entry: nat) | Panicked | Faulted | OutOfFrames

  class Loader {
    var space: Space

    constructor (space: Space)
      ensures this.space == space
    {
      this.space := space;
    }

    /** The page loop of `vmm_alloc`. */
    method MapLoop(found: nat, n: nat)
      requires n <= |space.free|
      modifies this
      ensures space == MapPages(old(space), found / 0x1000, n)
    {
      var i := 0;
      while i < n
        invariant 0 <= i <= n && space == MapPages(old(space), found / 0x1000, i)
      {
        space := space.(pages := space.pages[found / 0x1000 + i := space.free[0]], free := space.free[1..]);
        i := i + 1;
      }
    }

    /** The copy of `vfs_read` into the new segment; false is a page fault. */
    method CopyLoop(a: nat, bytes: seq<Byte>, header: nat) returns (ok: bool)
      requires Sound(space)
      modifies this
      ensures ok <==> Copy(old(space), a, bytes, header).Some?
      ensures ok ==> Some(space) == Copy(old(space), a, bytes, header)
    {
      hide Sound, Poke;
      var k := 0;
      assert bytes[0..] == bytes;
      while k < |bytes|
        invariant 0 <= k <= |bytes| && Sound(space)
        invariant Copy(old(space), a, bytes, header) == Copy(space, a + k, bytes[k..], header)
      {
        assert bytes[k..][0] == bytes[k] && bytes[k..][1..] == bytes[k + 1..];
        if !Mapped(space, a + k) {
          return false;
        }
        PokeAt(space, a + k, Cell(bytes[k], Some(header)), a + k);
        PokeReady(space, a + k);
        space := Poke(space, a + k, Cell(bytes[k], Some(header)));
        k := k + 1;
      }
      return true;
    }

    static lemma PokeReady(sp: Space, a: nat)
      requires Sound(sp) && Mapped(sp, a)
      ensures sp.pages[a / 0x1000] in sp.ram && |sp.ram[sp.pages[a / 0x1000]]| == 0x1000
    {
    }

    /** One loadable segment: `vmm_alloc`, and the copy of its file part. None
        means that loading goes on. */
    method Segment(file: OpenFile, h: Phdr, header: nat) returns (r: Option<LoadResult>)
      requires Sound(space) && space.regions != [] && h.ptype == PT_LOAD && h.offset + h.filesz <= |file.buffer| < 0x8000_0000
      modifies this, file
      ensures match LoadSegment(old(space), file.buffer, h, header)
        case Running(sp) => r == None && space == sp
        case Panic => r == Some(Panicked)
        case Fault => r == Some(Faulted)
        case NoFrames => r == Some(OutOfFrames)
    {
      hide MapPages, Copy, Place, Insert, PageAlign, PageAlignDown, Sound;
      var length, start := PageAlign(h.memsz), PageAlignDown(h.vaddr);
      assert length == Length(h) && start == Start(h);
      var place := Place(space.regions, start, length);
      if place == None {
        return Some(Panicked);
      }
      var (k, found) := place.value;
      if length / 0x1000 > |space.free| {
        return Some(OutOfFrames);
      }
      RegionsSound(space, Insert(space.regions, k + 1, Extent(found, length)));
      space := space.(regions := Insert(space.regions, k + 1, Extent(found, length)));
      MapPagesSound(space, found / 0x1000, length / 0x1000);
      MapLoop(found, length / 0x1000);
      if found == 0 {
        return Some(Panicked);
      }
      file.Seek(h.offset);
      var bytes := file.Read(h.filesz);
      var ok := CopyLoop(h.vaddr, bytes, header);
      return if ok then None else Some(Faulted);
    }

    /** `load_elf` on a freshly opened file. */
    method LoadElf(file: OpenFile) returns (r: LoadResult, ghost e: Ehdr)
      requires Sound(space) && space.regions != []
      requires file.readPos == 0 && EHDR_SIZE <= |file.buffer|
      requires Readable(file.buffer, DecodeEhdr(file.buffer[..EHDR_SIZE]))
      modifies this, file
      ensures e == DecodeEhdr(file.buffer[..EHDR_SIZE])
      ensures match LoadAll(old(space), file.buffer, Phdrs(file.buffer, e), e.phnum)
        case Running(sp) => r == Entry(e.entry) && space == sp && file.readPos == e.phoff + e.phnum * PHDR_SIZE
        case Panic => r == Panicked
        case Fault => r == Faulted
        case NoFrames => r == OutOfFrames
    {
      hide Number, Sound, LoadSegment, TouchEnd;
      var bytes := file.Read(EHDR_SIZE);
      var ehdr := DecodeEhdr(bytes);
      e := ehdr;
      ghost var hs := Phdrs(file.buffer, ehdr);
      file.Seek(ehdr.phoff);
      var filePos := ehdr.phoff;
      var i := 0;
      while i < ehdr.phnum
        invariant 0 <= i <= ehdr.phnum && Sound(space) && space.regions != []
        invariant filePos == file.readPos == ehdr.phoff + i * PHDR_SIZE
        invariant LoadAll(old(space), file.buffer, hs, i) == Running(space)
      {
        InFile(ehdr, i, |file.buffer|);
        bytes := file.Read(PHDR_SIZE);
        var phdr := DecodePhdr(bytes);
        assert phdr == hs[i];
        filePos := filePos + PHDR_SIZE;
        if phdr.ptype == PT_LOAD {
          ghost var sp := space;
          var stop := Segment(file, phdr, i);
          StopsThere(old(space), file.buffer, hs, i, sp);
          if stop.Some? {
            return stop.value, e;
          }
          file.Seek(filePos);
        } else {
          SkipSegment(space, file.buffer, phdr, i);
        }
        i := i + 1;
      }
      r := Entry(ehdr.entry);
    }

    /** The outcome of a segment that stops is the outcome of the call. */
    static lemma StopsThere(sp0: Space, file: seq<Byte>, hs: seq<Phdr>, i: nat, sp: Space)
      requires Sound(sp0) && sp0.regions != [] && Sound(sp) && sp.regions != [] && InImage(file, hs) && i < |hs|
      requires LoadAll(sp0, file, hs, i) == Running(sp)
      ensures LoadAll(sp0, file, hs, i + 1) == LoadSegment(sp, file, hs[i], i)
      ensures !LoadSegment(sp, file, hs[i], i).Running? ==>
        LoadAll(sp0, file, hs, |hs|) == LoadSegment(sp, file, hs[i], i)
    {
      hide LoadSegment;
      if !LoadSegment(sp, file, hs[i], i).Running? {
        Stays(sp0, file, hs, i + 1, |hs|);
      }
    }

    static lemma {:induction false} Stays(sp0: Space, file: seq<Byte>, hs: seq<Phdr>, i: nat, n: nat)
      requires Sound(sp0) && sp0.regions != [] && InImage(file, hs) && i <= n <= |hs|
      requires !LoadAll(sp0, file, hs, i).Running?
      ensures LoadAll(sp0, file, hs, n) == LoadAll(sp0, file, hs, i)
      decreases n - i
    {
      hide LoadSegment;
      if i < n {
        Stays(sp0, file, hs, i, n - 1);
      }
    }
  }
}
