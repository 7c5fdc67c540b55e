/** What the boot loader reads out of an ELF file: the header and the program
    header table, field by field as an ELF file holds them, and load_kernel on a
    disk with such a file. */
module ElfImage {
  import opened Loader

  const EM_X86_64 := 62

  /** Elf32_Phdr or Elf64_Phdr. */
  datatype Phdr = Phdr(kind: nat, offset: nat, vaddr: nat, paddr: nat, filesz: nat, memsz: nat, flags: nat, align: nat)

  /** An ELF file up to its program header table: the class, the fields of the
      ELF header that vary, what stands between header and table, and the
      table. */
  datatype Image = Image(
    wide: bool, ident: seq<Byte>, kind: nat, machine: nat, version: nat, entry: nat, shoff: nat, flags: nat,
    shentsize: nat, shnum: nat, shstrndx: nat, gap: seq<Byte>, phdrs: seq<Phdr>)

  /** The lowest k bytes of v, in little-endian order. */
  function Le(v: nat, k: nat): (r: seq<Byte>)
    ensures |r| == k
  {
    if k == 0 then [] else [v % 0x100] + Le(v / 0x100, k - 1)
  }

  /** sizeof(Elf_Addr) and sizeof(Elf_Ehdr). */
  function AddrSize(wide: bool): nat { if wide then 8 else 4 }
  function EhSize(wide: bool): nat { if wide then 64 else 52 }

  /** e_ident, e_type, e_machine and e_version. */
  function EhdrFront(x: Image): (r: seq<Byte>)
    ensures |r| == |x.ident| + 8
  {
    x.ident + Le(x.kind, 2) + Le(x.machine, 2) + Le(x.version, 4)
  }

  /** e_entry, e_phoff and e_shoff. */
  function EhdrAddresses(x: Image): (r: seq<Byte>)
    ensures |r| == 3 * AddrSize(x.wide)
  {
    var w := AddrSize(x.wide);
    Le(x.entry, w) + Le(EhSize(x.wide) + |x.gap|, w) + Le(x.shoff, w)
  }

  /** e_flags, e_ehsize, e_phentsize, e_phnum, e_shentsize, e_shnum and
      e_shstrndx. */
  function EhdrBack(x: Image): (r: seq<Byte>)
    ensures |r| == 16
  {
    Le(x.flags, 4) + Le(EhSize(x.wide), 2) + Le(PhSize(x.wide), 2) + Le(|x.phdrs|, 2) +
    Le(x.shentsize, 2) + Le(x.shnum, 2) + Le(x.shstrndx, 2)
  }

  /** p_flags follows p_type in the 64-bit format only. */
  function PhdrBytes(wide: bool, p: Phdr): (r: seq<Byte>)
    ensures |r| == PhSize(wide)
  {
    if wide then
      Le(p.kind, 4) + Le(p.flags, 4) + Le(p.offset, 8) + Le(p.vaddr, 8) + Le(p.paddr, 8) + Le(p.filesz, 8) +
      Le(p.memsz, 8) + Le(p.align, 8)
    else
      Le(p.kind, 4) + Le(p.offset, 4) + Le(p.vaddr, 4) + Le(p.paddr, 4) + Le(p.filesz, 4) + Le(p.memsz, 4) +
      Le(p.flags, 4) + Le(p.align, 4)
  }

  function Table(wide: bool, phdrs: seq<Phdr>): (r: seq<Byte>)
    ensures |r| == |phdrs| * PhSize(wide)
  {
    if phdrs == [] then [] else
      var n := |phdrs| - 1;
      assert |phdrs| * PhSize(wide) == n * PhSize(wide) + PhSize(wide);
      Table(wide, phdrs[..n]) + PhdrBytes(wide, phdrs[n])
  }

  /** The file from its start to the end of the program header table. */
  function Encode(x: Image): seq<Byte> {
    EhdrFront(x) + EhdrAddresses(x) + EhdrBack(x) + x.gap + Table(x.wide, x.phdrs)
  }

  /** The file on the disk starts with the encoded headers, which fit the page
      that the loader reads. */
  ghost predicate Encodes(disk: Disk, x: Image) {
    && |x.ident| == 16
    && |Encode(x)| <= 4096
    && forall k :: 0 <= k < |Encode(x)| ==> FileByte(disk, k) == Encode(x)[k]
  }

  /** The segment that a program header is for; the loader casts its fields to
      uint32_t. */
  function Wanted(p: Phdr): Segment { Segment(p.filesz % W32, p.memsz % W32, p.paddr % W32, p.offset % W32) }

  // ---- reading back what was encoded ----

  ghost predicate Holds(m: Mem, a: int, bytes: seq<Byte>) {
    forall k :: 0 <= k < |bytes| ==> Ld(m, a + k) == bytes[k]
  }

  lemma HoldsParts(m: Mem, a: int, front: seq<Byte>, back: seq<Byte>)
    requires Holds(m, a, front + back)
    ensures Holds(m, a, front) && Holds(m, a + |front|, back)
  {
    forall k | 0 <= k < |front| ensures Ld(m, a + k) == front[k] {
      assert (front + back)[k] == front[k];
    }
    forall k | 0 <= k < |back| ensures Ld(m, a + |front| + k) == back[k] {
      assert (front + back)[|front| + k] == back[k];
    }
  }

  lemma HalfRead(m: Mem, a: int, v: nat, k: nat)
    requires Holds(m, a, Le(v, k)) && k >= 2
    ensures Half(m, a) == v % 0x1_0000
  {
    var b := Le(v, k);
    assert b[0] == v % 0x100 && b[1] == Le(v / 0x100, k - 1)[0] == v / 0x100 % 0x100;
    assert Ld(m, a + 0) == b[0] && Ld(m, a + 1) == b[1];
  }

  lemma WordOfHalves(v: nat)
    ensures v % 0x1_0000 + 0x1_0000 * (v / 0x100 / 0x100 % 0x1_0000) == v % W32
  {
    assert v / 0x100 / 0x100 == v / 0x1_0000;
  }

  lemma WordRead(m: Mem, a: int, v: nat, k: nat)
    requires Holds(m, a, Le(v, k)) && k >= 4
    ensures Word32(m, a) == v % W32
  {
    hide Holds, Half;
    var u := v / 0x100 / 0x100;
    assert Le(v, k) == [v % 0x100] + Le(v / 0x100, k - 1);
    assert Le(v / 0x100, k - 1) == [v / 0x100 % 0x100] + Le(u, k - 2);
    hide Le;
    HalfRead(m, a, v, k);
    HoldsParts(m, a, [v % 0x100], Le(v / 0x100, k - 1));
    HoldsParts(m, a + 1, [v / 0x100 % 0x100], Le(u, k - 2));
    HalfRead(m, a + 2, u, k - 2);
    WordOfHalves(v);
  }

  lemma {:induction false} TableAt(m: Mem, a: int, wide: bool, phdrs: seq<Phdr>, i: nat)
    requires Holds(m, a, Table(wide, phdrs)) && i < |phdrs|
    ensures Holds(m, a + i * PhSize(wide), PhdrBytes(wide, phdrs[i]))
  {
    hide Holds, PhdrBytes;
    var n := |phdrs| - 1;
    HoldsParts(m, a, Table(wide, phdrs[..n]), PhdrBytes(wide, phdrs[n]));
    if i < n {
      TableAt(m, a, wide, phdrs[..n], i);
    }
  }

  lemma PhdrRead(m: Mem, wide: bool, ph: int, p: Phdr)
    requires Holds(m, ph, PhdrBytes(wide, p))
    ensures SegmentAt(m, wide, ph) == Wanted(p)
  {
    hide Holds, Word32, Le;
    if wide {
      var s4 := Le(p.kind, 4) + Le(p.flags, 4);
      var s5 := s4 + Le(p.offset, 8);
      var s6 := s5 + Le(p.vaddr, 8);
      var s7 := s6 + Le(p.paddr, 8);
      var s8 := s7 + Le(p.filesz, 8);
      var s9 := s8 + Le(p.memsz, 8);
      HoldsParts(m, ph, s9, Le(p.align, 8));
      HoldsParts(m, ph, s8, Le(p.memsz, 8));
      HoldsParts(m, ph, s7, Le(p.filesz, 8));
      HoldsParts(m, ph, s6, Le(p.paddr, 8));
      HoldsParts(m, ph, s5, Le(p.vaddr, 8));
      HoldsParts(m, ph, s4, Le(p.offset, 8));
      WordRead(m, ph + 32, p.filesz, 8);
      WordRead(m, ph + 40, p.memsz, 8);
      WordRead(m, ph + 24, p.paddr, 8);
      WordRead(m, ph + 8, p.offset, 8);
    } else {
      var s1 := Le(p.kind, 4);
      var s2 := s1 + Le(p.offset, 4);
      var s3 := s2 + Le(p.vaddr, 4);
      var s4 := s3 + Le(p.paddr, 4);
      var s5 := s4 + Le(p.filesz, 4);
      var s6 := s5 + Le(p.memsz, 4);
      var s7 := s6 + Le(p.flags, 4);
      HoldsParts(m, ph, s7, Le(p.align, 4));
      HoldsParts(m, ph, s6, Le(p.flags, 4));
      HoldsParts(m, ph, s5, Le(p.memsz, 4));
      HoldsParts(m, ph, s4, Le(p.filesz, 4));
      HoldsParts(m, ph, s3, Le(p.paddr, 4));
      HoldsParts(m, ph, s2, Le(p.vaddr, 4));
      HoldsParts(m, ph, s1, Le(p.offset, 4));
      WordRead(m, ph + 16, p.filesz, 4);
      WordRead(m, ph + 20, p.memsz, 4);
      WordRead(m, ph + 12, p.paddr, 4);
      WordRead(m, ph + 4, p.offset, 4);
    }
  }

  /** The five parts of the header page. */
  lemma PageParts(disk: Disk, x: Image)
    requires Encodes(disk, x)
    ensures var m, w := HeaderOf(disk), AddrSize(x.wide);
      && Holds(m, HEADER, EhdrFront(x)) && Holds(m, HEADER + 24, EhdrAddresses(x))
      && Holds(m, HEADER + 24 + 3 * w, EhdrBack(x))
      && Holds(m, HEADER + EhSize(x.wide) + |x.gap|, Table(x.wide, x.phdrs))
  {
    hide EhdrFront, EhdrAddresses, EhdrBack, Table, HeaderOf;
    var m := HeaderOf(disk);
    forall k | 0 <= k < |Encode(x)| ensures Ld(m, HEADER + k) == Encode(x)[k] {
      HeaderAt(disk, k);
    }
    hide Ld;
    assert Holds(m, HEADER, Encode(x));
    hide Holds;
    var s2 := EhdrFront(x) + EhdrAddresses(x);
    var s3 := s2 + EhdrBack(x);
    var s4 := s3 + x.gap;
    HoldsParts(m, HEADER, s4, Table(x.wide, x.phdrs));
    HoldsParts(m, HEADER, s3, x.gap);
    HoldsParts(m, HEADER, s2, EhdrBack(x));
    HoldsParts(m, HEADER, EhdrFront(x), EhdrAddresses(x));
  }

  lemma HeaderAt(disk: Disk, k: int)
    requires 0 <= k < 4096
    ensures Ld(HeaderOf(disk), HEADER + k) == FileByte(disk, k)
  {
  }

  lemma FrontRead(m: Mem, x: Image)
    requires Holds(m, HEADER, EhdrFront(x)) && |x.ident| == 16
    ensures Half(m, HEADER + 18) == x.machine % 0x1_0000
  {
    hide Holds, Half, Le;
    var s2 := x.ident + Le(x.kind, 2);
    var s3 := s2 + Le(x.machine, 2);
    HoldsParts(m, HEADER, s3, Le(x.version, 4));
    HoldsParts(m, HEADER, s2, Le(x.machine, 2));
    HalfRead(m, HEADER + 18, x.machine, 2);
  }

  lemma AddressesRead(m: Mem, x: Image)
    requires Holds(m, HEADER + 24, EhdrAddresses(x))
    ensures Word32(m, HEADER + 24) == x.entry % W32 && PhOff(m, x.wide) == (EhSize(x.wide) + |x.gap|) % W32
  {
    hide Holds, Word32, Le;
    var w := AddrSize(x.wide);
    var s1 := Le(x.entry, w);
    var s2 := s1 + Le(EhSize(x.wide) + |x.gap|, w);
    HoldsParts(m, HEADER + 24, s2, Le(x.shoff, w));
    HoldsParts(m, HEADER + 24, s1, Le(EhSize(x.wide) + |x.gap|, w));
    WordRead(m, HEADER + 24, x.entry, w);
    WordRead(m, HEADER + 24 + w, EhSize(x.wide) + |x.gap|, w);
  }

  lemma BackRead(m: Mem, x: Image)
    requires Holds(m, HEADER + 24 + 3 * AddrSize(x.wide), EhdrBack(x))
    ensures PhNum(m, x.wide) == |x.phdrs| % 0x1_0000
  {
    hide Holds, Half, Le;
    var a := HEADER + 24 + 3 * AddrSize(x.wide);
    var s3 := Le(x.flags, 4) + Le(EhSize(x.wide), 2) + Le(PhSize(x.wide), 2);
    var s4 := s3 + Le(|x.phdrs|, 2);
    var s5 := s4 + Le(x.shentsize, 2);
    var s6 := s5 + Le(x.shnum, 2);
    HoldsParts(m, a, s6, Le(x.shstrndx, 2));
    HoldsParts(m, a, s5, Le(x.shnum, 2));
    HoldsParts(m, a, s4, Le(x.shentsize, 2));
    HoldsParts(m, a, s3, Le(|x.phdrs|, 2));
    HalfRead(m, a + 8, |x.phdrs|, 2);
  }

  lemma SizeOf(x: Image)
    ensures |Encode(x)| == |x.ident| + 36 + (if x.wide then 12 else 0) + |x.gap| + |x.phdrs| * PhSize(x.wide)
  {
    hide EhdrFront, EhdrAddresses, EhdrBack, Table;
  }

  /** The loader finds in the header page what the file encodes: the entry
      point, and for each program header its segment. Whether it reads the page
      as 64-bit is decided by e_machine, not by the class. */
  lemma ReadsBack(disk: Disk, x: Image)
    requires Encodes(disk, x)
    ensures var h := HeaderOf(disk);
      && (IsWide(h) <==> x.machine % 0x1_0000 == EM_X86_64)
      && Word32(h, HEADER + 24) == x.entry % W32
      && PhNum(h, x.wide) == |x.phdrs|
      && PhOff(h, x.wide) == EhSize(x.wide) + |x.gap|
      && forall i: nat :: i < |x.phdrs| ==> SegmentOf(h, x.wide, i) == Wanted(x.phdrs[i])
  {
    hide Holds, Encode, Half, Word32, PhNum, PhOff, EhdrFront, EhdrAddresses, EhdrBack, Table, PhdrBytes, SegmentAt;
    var h := HeaderOf(disk);
    hide HeaderOf;
    PageParts(disk, x);
    SizeOf(x);
    FrontRead(h, x);
    AddressesRead(h, x);
    BackRead(h, x);
    forall i: nat | i < |x.phdrs| ensures SegmentOf(h, x.wide, i) == Wanted(x.phdrs[i]) {
      TableAt(h, HEADER + EhSize(x.wide) + |x.gap|, x.wide, x.phdrs, i);
      PhdrRead(h, x.wide, HEADER + EhSize(x.wide) + |x.gap| + i * PhSize(x.wide), x.phdrs[i]);
    }
  }

  // ---- loading it ----

  /** Segment i can be loaded after those before it, and spares the header page
      and the arguments. */
  ghost predicate Placeable(x: Image, i: nat)
    requires i < |x.phdrs|
  {
    && Proper(Wanted(x.phdrs[i]))
    && (forall a :: HEADER <= a < HEADER_END || MAINARG <= a < MAINARG + ARGSIZE ==> !InSpan(Wanted(x.phdrs[i]), a))
    && (forall j: nat :: j < i ==> Avoids(Wanted(x.phdrs[i]), Wanted(x.phdrs[j])))
  }

  /** A 64-bit file is for x86-64 and a 32-bit file is not, and every segment
      has its place. */
  ghost predicate Loadable(x: Image) {
    && (x.wide <==> x.machine % 0x1_0000 == EM_X86_64)
    && forall i: nat :: i < |x.phdrs| ==> Placeable(x, i)
  }

  lemma LoadableIsGood(disk: Disk, x: Image)
    requires Encodes(disk, x) && Loadable(x)
    ensures GoodDisk(disk)
  {
    hide Proper, InSpan, Avoids, IsWide, PhNum, PhOff, SegmentOf, Wanted, Encode;
    var h := HeaderOf(disk);
    hide HeaderOf;
    ReadsBack(disk, x);
    SizeOf(x);
    forall i: nat | i < PhNum(h, x.wide) ensures ImageAt(h, x.wide, i) {
      assert Placeable(x, i);
      assert (i + 1) * PhSize(x.wide) <= |x.phdrs| * PhSize(x.wide);
    }
    forall a | MAINARG <= a < MAINARG + ARGSIZE ensures SparedByAll(h, a) {
      forall i: nat | i < PhNum(h, x.wide) ensures !InSpan(SegmentOf(h, x.wide, i), a) {
        assert Placeable(x, i);
      }
    }
  }

  /** p_filesz bytes of the file from p_offset on stand at p_paddr, and zeros
      follow up to p_memsz. */
  ghost predicate InPlace(m: Mem, disk: Disk, p: Phdr) {
    && (forall a :: p.paddr % W32 <= a < p.paddr % W32 + p.filesz % W32 ==>
          Ld(m, a) == FileByte(disk, p.offset % W32 + (a - p.paddr % W32)))
    && (forall a :: p.paddr % W32 + p.filesz % W32 <= a < p.paddr % W32 + p.memsz % W32 ==> Ld(m, a) == 0)
  }

  lemma LoadedInPlace(m: Mem, disk: Disk, p: Phdr)
    requires SegmentLoaded(m, disk, Wanted(p))
    ensures InPlace(m, disk, p)
  {
    hide Ld, FileByte;
  }

  /** load_kernel for the boot processor, on a disk with a loadable file: it goes
      to the file's entry point, with the arguments at MAINARG_ADDR, every
      segment's bytes in place, and its bss zero up to p_memsz. */
  method LoadImage(k: Machine, ghost x: Image) returns (entry: int)
    requires Encodes(k.disk, x) && Loadable(x)
    modifies k
    ensures entry == x.entry % W32
    ensures forall a :: MAINARG <= a < MAINARG + ARGSIZE ==> Ld(k.mem, a) == k.disk(SECTSIZE + (a - MAINARG))
    ensures forall i: nat :: i < |x.phdrs| ==> InPlace(k.mem, k.disk, x.phdrs[i])
  {
    hide HeaderOf, GoodDisk, Encode, IsWide, PhNum, SegmentOf, Ld, FileByte, Placeable, InPlace, SegmentLoaded;
    LoadableIsGood(k.disk, x);
    entry := k.LoadKernel(false);
    ReadsBack(k.disk, x);
    forall i: nat | i < |x.phdrs| ensures InPlace(k.mem, k.disk, x.phdrs[i]) {
      assert SegmentLoaded(k.mem, k.disk, SegmentOf(HeaderOf(k.disk), x.wide, i));
      LoadedInPlace(k.mem, k.disk, x.phdrs[i]);
    }
  }
}
