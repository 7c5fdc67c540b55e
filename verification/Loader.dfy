/** The boot loader (boot/main.c): whole-sector reads, and the ELF segments. */
module Loader {
  type Byte = b: int | 0 <= b < 256
  type Mem = map<int, Byte>

  /** One past the largest uint32_t. */
  const W32 := 0x1_0000_0000
  const SECTSIZE := 512
  const ARGSIZE := 1024
  const MAINARG := 0x1_0000
  const HEADER := 0x8000
  const HEADER_END := 0x9000

  function Ld(m: Mem, a: int): Byte { if a in m then m[a] else 0 }

  function St(m: Mem, a: int, v: Byte): (m': Mem)
    ensures forall x :: Ld(m', x) == if x == a then v else Ld(m, x)
  {
    m[a := v]
  }

  /** Byte p of the disk. */
  type Disk = int -> Byte

  /** Byte j of the file, which follows the boot sector and the arguments. */
  function FileByte(disk: Disk, j: int): Byte { disk(j + ARGSIZE + SECTSIZE) }

  function Down(x: int): int { x / SECTSIZE * SECTSIZE }

  function Up(x: int): int { (x + SECTSIZE - 1) / SECTSIZE * SECTSIZE }

  /** C's division, which truncates toward zero. */
  function CDiv(x: int, y: int): int
    requires y > 0
  {
    if x >= 0 then x / y else -(-x / y)
  }

  /** A uint32_t passed as an int. */
  function ToInt(x: int): int { if x >= 0x8000_0000 then x - W32 else x }

  /** The first sector number that copy_from_disk computes. */
  function FirstSector(offset: int): int { (CDiv(offset, SECTSIZE) + ARGSIZE / SECTSIZE + 1) % W32 }

  /** struct of program header fields that the loader uses. */
  datatype Segment = Segment(filesz: int, memsz: int, paddr: int, offset: int)

  /** The bytes that loading a segment may write. */
  predicate InSpan(s: Segment, a: int) {
    Down(s.paddr) <= a < Up(s.paddr + s.filesz) || s.paddr <= a < s.paddr + s.memsz
  }

  /** What a loaded segment looks like. */
  ghost predicate SegmentLoaded(m: Mem, disk: Disk, s: Segment) {
    && (forall a :: s.paddr <= a < s.paddr + s.filesz ==> Ld(m, a) == FileByte(disk, s.offset + (a - s.paddr)))
    && (forall a :: s.paddr + s.filesz <= a < s.paddr + s.memsz ==> Ld(m, a) == 0)
  }

  ghost predicate SameOutside(m: Mem, m': Mem, s: Segment) {
    forall a :: !InSpan(s, a) ==> Ld(m', a) == Ld(m, a)
  }

  /** A segment that the loader can handle. OffsetExact and CopyExact show
      that the bounds on offset and paddr + filesz are needed. */
  predicate Proper(s: Segment) {
    && 0 <= s.filesz <= s.memsz && 0 <= s.paddr && s.paddr + s.memsz <= W32 && s.memsz < W32
    && 0 <= s.offset < 0x8000_0000 && (s.paddr - s.offset) % SECTSIZE == 0
    && s.paddr + s.filesz <= W32 - SECTSIZE
  }

  /** Loading t writes no byte of s. */
  ghost predicate Avoids(t: Segment, s: Segment) {
    forall a :: s.paddr <= a < s.paddr + s.memsz ==> !InSpan(t, a)
  }

  lemma LoadedKept(m: Mem, m': Mem, disk: Disk, s: Segment, t: Segment)
    requires SegmentLoaded(m, disk, s) && SameOutside(m, m', t) && Avoids(t, s) && Proper(s)
    ensures SegmentLoaded(m', disk, s)
  {
    hide InSpan;
  }

  // ---- the ELF header page ----

  function Half(m: Mem, a: int): nat { Ld(m, a) + 0x100 * Ld(m, a + 1) }

  function Word32(m: Mem, a: int): nat { Half(m, a) + 0x1_0000 * Half(m, a + 2) }

  /** e_machine == EM_X86_64. */
  predicate IsWide(m: Mem) { Half(m, HEADER + 18) == 62 }

  /** e_phoff, e_phnum and sizeof(Elf_Phdr) of both formats; of 64-bit fields
      only the lower word is used. */
  function PhOff(m: Mem, wide: bool): nat { Word32(m, HEADER + if wide then 32 else 28) }
  function PhNum(m: Mem, wide: bool): nat { Half(m, HEADER + if wide then 56 else 44) }
  function PhSize(wide: bool): nat { if wide then 56 else 32 }

  function SegmentAt(m: Mem, wide: bool, ph: int): Segment {
    if wide then Segment(Word32(m, ph + 32), Word32(m, ph + 40), Word32(m, ph + 24), Word32(m, ph + 8))
    else Segment(Word32(m, ph + 16), Word32(m, ph + 20), Word32(m, ph + 12), Word32(m, ph + 4))
  }

  function SegmentOf(m: Mem, wide: bool, i: nat): Segment {
    SegmentAt(m, wide, HEADER + PhOff(m, wide) + i * PhSize(wide))
  }

  /** The same header page. */
  ghost predicate SamePage(m: Mem, m': Mem) {
    forall a :: HEADER <= a < HEADER_END ==> Ld(m', a) == Ld(m, a)
  }

  lemma SamePageSelf(m: Mem)
    ensures SamePage(m, m)
  {
  }

  lemma PageTrans(m: Mem, m': Mem, m'': Mem)
    requires SamePage(m, m') && SamePage(m', m'')
    ensures SamePage(m, m'')
  {
  }

  lemma WordSame(m: Mem, m': Mem, a: int)
    requires SamePage(m, m') && HEADER <= a && a + 4 <= HEADER_END
    ensures Word32(m', a) == Word32(m, a) && Half(m', a) == Half(m, a)
  {
  }

  lemma PageDecides(m: Mem, m': Mem)
    requires SamePage(m, m')
    ensures IsWide(m') == IsWide(m) && Word32(m', HEADER + 24) == Word32(m, HEADER + 24)
    ensures forall wide :: PhOff(m', wide) == PhOff(m, wide) && PhNum(m', wide) == PhNum(m, wide)
  {
    hide Ld, Word32, Half, SamePage;
    WordSame(m, m', HEADER + 18);
    WordSame(m, m', HEADER + 24);
    WordSame(m, m', HEADER + 28);
    WordSame(m, m', HEADER + 32);
    WordSame(m, m', HEADER + 44);
    WordSame(m, m', HEADER + 56);
  }

  lemma HeaderSegment(m: Mem, m': Mem, wide: bool, i: nat)
    requires SamePage(m, m') && PhOff(m, wide) + (i + 1) * PhSize(wide) <= 4096
    ensures SegmentAt(m', wide, HEADER + PhOff(m, wide) + i * PhSize(wide)) == SegmentOf(m, wide, i)
    ensures SegmentOf(m', wide, i) == SegmentOf(m, wide, i) && PhNum(m', wide) == PhNum(m, wide)
  {
    hide Ld, Word32, Half, SamePage;
    PageDecides(m, m');
    var ph := HEADER + PhOff(m, wide) + i * PhSize(wide);
    WordSame(m, m', ph + 4);
    WordSame(m, m', ph + 8);
    WordSame(m, m', ph + 12);
    WordSame(m, m', ph + 16);
    WordSame(m, m', ph + 20);
    WordSame(m, m', ph + 24);
    if wide {
      WordSame(m, m', ph + 32);
      WordSame(m, m', ph + 40);
    }
  }

  /** Segment i can be loaded after those before it: it spares them and the
      header page. */
  ghost predicate ImageAt(m: Mem, wide: bool, i: nat) {
    && PhOff(m, wide) + (i + 1) * PhSize(wide) <= 4096
    && Proper(SegmentOf(m, wide, i))
    && (forall a :: HEADER <= a < HEADER_END ==> !InSpan(SegmentOf(m, wide, i), a))
    && (forall j: nat :: j < i ==> Avoids(SegmentOf(m, wide, i), SegmentOf(m, wide, j)))
  }

  ghost predicate GoodImage(m: Mem, wide: bool) {
    forall i: nat :: i < PhNum(m, wide) ==> ImageAt(m, wide, i)
  }

  /** a is in no span of the first n segments. */
  ghost predicate Spared(m: Mem, wide: bool, n: nat, a: int) {
    forall i: nat :: i < n ==> !InSpan(SegmentOf(m, wide, i), a)
  }

  /** The header page as it is in the file. */
  function HeaderOf(disk: Disk): Mem {
    map a | HEADER <= a < HEADER_END :: HeaderByte(disk, a)
  }

  function HeaderByte(disk: Disk, a: int): Byte { FileByte(disk, a - HEADER) }

  /** A file whose segments the loader can place, clear of the arguments. */
  ghost predicate GoodDisk(disk: Disk) {
    GoodImage(HeaderOf(disk), IsWide(HeaderOf(disk))) && ArgsSpared(HeaderOf(disk))
  }

  ghost predicate ArgsSpared(m: Mem) {
    forall a :: MAINARG <= a < MAINARG + ARGSIZE ==> SparedByAll(m, a)
  }

  ghost predicate SparedByAll(m: Mem, a: int) { Spared(m, IsWide(m), PhNum(m, IsWide(m)), a) }

  /** The argument sectors stand at MAINARG. */
  ghost predicate ArgsThere(m: Mem, disk: Disk) {
    forall a :: MAINARG <= a < MAINARG + ARGSIZE ==> Ld(m, a) == disk(SECTSIZE + (a - MAINARG))
  }

  /** Every segment of the file is loaded. */
  ghost predicate AllLoaded(m: Mem, disk: Disk, h: Mem) {
    forall i: nat :: i < PhNum(h, IsWide(h)) ==> SegmentLoaded(m, disk, SegmentOf(h, IsWide(h), i))
  }

  /** From m0 to m exactly [lo, hi) was filled, with the file from `first` on
      at address lo. */
  ghost predicate Filled(m0: Mem, m: Mem, disk: Disk, lo: int, hi: int, first: int) {
    forall a :: Ld(m, a) == if lo <= a < hi then FileByte(disk, first + (a - lo)) else Ld(m0, a)
  }

  /** From m0 to m a sector was read to buf. */
  ghost predicate SectorAt(m0: Mem, m: Mem, disk: Disk, buf: int, sect: int) {
    forall a :: Ld(m, a) == if buf <= a < buf + SECTSIZE then disk(sect * SECTSIZE + (a - buf)) else Ld(m0, a)
  }

  ghost predicate Zeroed(m0: Mem, m: Mem, lo: int, hi: int) {
    forall a :: Ld(m, a) == if lo <= a < hi then 0 else Ld(m0, a)
  }

  class Machine {
    const disk: Disk
    var mem: Mem

    constructor (d: Disk, m: Mem)
      ensures disk == d && mem == m
    {
      disk, mem := d, m;
    }

    /** One sector into memory. */
    method ReadDisk(buf: int, sect: int)
      modifies this
      ensures SectorAt(old(mem), mem, disk, buf, sect)
    {
      for i := 0 to SECTSIZE
        invariant forall a :: Ld(mem, a) == if buf <= a < buf + i then disk(sect * SECTSIZE + (a - buf))
          else old(Ld(mem, a))
      {
        mem := St(mem, buf + i, disk(sect * SECTSIZE + i));
      }
    }

    /** copy_from_disk: the sectors that cover the range, at their place when
        buf and offset agree modulo the sector size. */
    method CopyFromDisk(buf: int, nbytes: int, offset: int)
      requires 0 <= buf && buf + nbytes % W32 <= W32 - SECTSIZE && (buf - offset) % SECTSIZE == 0
      requires -ARGSIZE <= offset < 0x8000_0000 && (0 <= offset || offset % SECTSIZE == 0)
      modifies this
      ensures Filled(old(mem), mem, disk, Down(buf), Up(buf + nbytes % W32), offset + Down(buf) - buf)
    {
      hide Filled, SectorAt, Down, Up, CDiv, FirstSector;
      var cur := buf - buf % SECTSIZE;
      var ed := (buf + nbytes) % W32;
      var sect := FirstSector(offset);
      StartSector(buf, offset);
      NoWrap(buf, nbytes);
      ghost var lo, first := Down(buf), offset + Down(buf) - buf;
      ghost var k := lo / SECTSIZE;
      UpAbove(buf, nbytes % W32);
      FilledNone(mem, disk, lo, first);
      while cur < ed
        invariant lo <= cur == SECTSIZE * k && cur <= Up(ed)
        invariant 0 <= sect && sect * SECTSIZE == first + (cur - lo) + ARGSIZE + SECTSIZE
        invariant Filled(old(mem), mem, disk, lo, cur, first)
        decreases ed - cur
      {
        UpAfter(k, ed);
        ghost var was := mem;
        ReadDisk(cur, sect);
        FilledMore(old(mem), was, mem, disk, lo, cur, first, sect);
        NextSector(cur, sect, ed, first, lo);
        cur := (cur + SECTSIZE) % W32;
        sect := (sect + 1) % W32;
        k := k + 1;
      }
      UpExact(k, ed, cur);
    }

    /** The bss loop, which counts from filesz to memsz. */
    method ZeroBss(s: Segment)
      requires 0 <= s.filesz <= s.memsz && 0 <= s.paddr && s.paddr + s.memsz <= W32 && s.memsz < W32
      modifies this
      ensures Zeroed(old(mem), mem, s.paddr + s.filesz, s.paddr + s.memsz)
    {
      hide Ld;
      var bss := (s.paddr + s.filesz) % W32;
      var i := s.filesz;
      while i != s.memsz
        invariant s.filesz <= i <= s.memsz && bss == (s.paddr + i) % W32
        invariant Zeroed(old(mem), mem, s.paddr + s.filesz, s.paddr + i)
        decreases s.memsz - i
      {
        mem := St(mem, bss, 0);
        bss := (bss + 1) % W32;
        i := (i + 1) % W32;
      }
    }

    /** load_program: the file's bytes, and zeros up to memsz. */
    method LoadProgram(s: Segment)
      requires Proper(s)
      modifies this
      ensures SegmentLoaded(mem, disk, s) && SameOutside(old(mem), mem, s)
    {
      CopyFromDisk(s.paddr, ToInt(s.filesz), ToInt(s.offset));
      ghost var copied := mem;
      ZeroBss(s);
      LoadedBy(old(mem), copied, mem, disk, s);
    }

    /** load_elf32 and load_elf64: every program header in turn. */
    method LoadElf(wide: bool)
      requires GoodImage(mem, wide)
      modifies this
      ensures SamePage(old(mem), mem)
      ensures forall i: nat :: i < PhNum(old(mem), wide) ==> SegmentLoaded(mem, disk, SegmentOf(old(mem), wide, i))
      ensures forall a :: Spared(old(mem), wide, PhNum(old(mem), wide), a) ==> Ld(mem, a) == Ld(old(mem), a)
    {
      ghost var m0 := mem;
      var ph := HEADER + PhOff(mem, wide);
      var i := 0;
      hide SegmentLoaded, SegmentAt, SamePage, Proper, InSpan, Avoids, SameOutside, PhOff, PhNum, Ld;
      SamePageSelf(m0);
      while i < PhNum(mem, wide)
        invariant 0 <= i <= PhNum(m0, wide) && ph == HEADER + PhOff(m0, wide) + i * PhSize(wide)
        invariant SamePage(m0, mem)
        invariant PhNum(mem, wide) == PhNum(m0, wide)
        invariant forall j: nat :: j < i ==> SegmentLoaded(mem, disk, SegmentOf(m0, wide, j))
        invariant forall a :: Spared(m0, wide, i, a) ==> Ld(mem, a) == Ld(m0, a)
        decreases PhNum(m0, wide) - i
      {
        assert ImageAt(m0, wide, i);
        HeaderSegment(m0, mem, wide, i);
        var s := SegmentAt(mem, wide, ph);
        ghost var was := mem;
        LoadProgram(s);
        AllKept(m0, was, mem, disk, wide, i);
        i := i + 1;
        ph := ph + PhSize(wide);
      }
    }

    /** load_kernel: arguments, header and segments for the boot CPU; nothing
        for the others, which find everything loaded. */
    method LoadKernel(isAp: bool) returns (entry: int)
      requires GoodDisk(disk)
      requires isAp ==> SamePage(HeaderOf(disk), mem)
      modifies this
      ensures entry == Word32(HeaderOf(disk), HEADER + 24)
      ensures isAp ==> mem == old(mem)
      ensures !isAp ==> ArgsThere(mem, disk) && AllLoaded(mem, disk, HeaderOf(disk))
    {
      hide HeaderOf, Filled, SamePage, GoodImage, ArgsThere, SegmentLoaded, SegmentOf, Spared, Ld, Word32, AllLoaded;
      ghost var h := HeaderOf(disk);
      if !isAp {
        CopyFromDisk(MAINARG, 1024, -1024);
        ghost var m1 := mem;
        CopyFromDisk(HEADER, 4096, 0);
        HeaderLoaded(m1, mem, disk);
        ArgsLoaded(old(mem), m1, mem, disk);
        ghost var m2 := mem;
        PageDecides(h, m2);
        GoodSame(h, m2);
        LoadElf(IsWide(mem));
        LoadedFromFile(m2, mem, disk, h);
        PageTrans(h, m2, mem);
        ArgsStay(m2, mem, disk);
      }
      PageDecides(h, mem);
      entry := Word32(mem, HEADER + 24);
    }
  }

  /** One more segment, and the earlier ones as they were. */
  lemma AllKept(m0: Mem, was: Mem, now: Mem, disk: Disk, wide: bool, i: nat)
    requires i < PhNum(m0, wide) && GoodImage(m0, wide) && SamePage(m0, was)
    requires SegmentLoaded(now, disk, SegmentOf(m0, wide, i)) && SameOutside(was, now, SegmentOf(m0, wide, i))
    requires forall j: nat :: j < i ==> SegmentLoaded(was, disk, SegmentOf(m0, wide, j))
    requires forall a :: Spared(m0, wide, i, a) ==> Ld(was, a) == Ld(m0, a)
    ensures forall j: nat :: j < i + 1 ==> SegmentLoaded(now, disk, SegmentOf(m0, wide, j))
    ensures SamePage(m0, now) && PhNum(now, wide) == PhNum(m0, wide)
    ensures forall a :: Spared(m0, wide, i + 1, a) ==> Ld(now, a) == Ld(m0, a)
  {
    hide SegmentLoaded, SegmentOf, Proper, InSpan, Avoids, PhOff, PhNum, Ld;
    assert ImageAt(m0, wide, i);
    forall j: nat | j < i ensures SegmentLoaded(now, disk, SegmentOf(m0, wide, j)) {
      assert ImageAt(m0, wide, j);
      LoadedKept(was, now, disk, SegmentOf(m0, wide, j), SegmentOf(m0, wide, i));
    }
    forall a | Spared(m0, wide, i + 1, a) ensures Ld(now, a) == Ld(m0, a) {
      assert Spared(m0, wide, i, a);
    }
    PageDecides(m0, now);
  }

  lemma HeaderLoaded(m1: Mem, m2: Mem, disk: Disk)
    requires Filled(m1, m2, disk, Down(HEADER), Up(HEADER + 4096), 0 + Down(HEADER) - HEADER)
    ensures SamePage(HeaderOf(disk), m2)
  {
  }

  lemma ArgsLoaded(m0: Mem, m1: Mem, m2: Mem, disk: Disk)
    requires Filled(m0, m1, disk, Down(MAINARG), Up(MAINARG + 1024), -1024 + Down(MAINARG) - MAINARG)
    requires Filled(m1, m2, disk, Down(HEADER), Up(HEADER + 4096), 0 + Down(HEADER) - HEADER)
    ensures ArgsThere(m2, disk)
  {
  }

  /** The segments of the header in memory are those of the file. */
  lemma LoadedFromFile(m2: Mem, m3: Mem, disk: Disk, h: Mem)
    requires GoodImage(h, IsWide(h)) && SamePage(h, m2)
    requires forall i: nat :: i < PhNum(m2, IsWide(m2)) ==> SegmentLoaded(m3, disk, SegmentOf(m2, IsWide(m2), i))
    ensures AllLoaded(m3, disk, h)
  {
    hide SegmentLoaded, SegmentOf, Ld, PhNum, IsWide;
    PageDecides(h, m2);
    GoodSame(h, m2);
  }

  lemma ArgsStay(m2: Mem, m3: Mem, disk: Disk)
    requires GoodDisk(disk) && SamePage(HeaderOf(disk), m2) && ArgsThere(m2, disk)
    requires forall a :: Spared(m2, IsWide(m2), PhNum(m2, IsWide(m2)), a) ==> Ld(m3, a) == Ld(m2, a)
    ensures ArgsThere(m3, disk)
  {
    hide InSpan, SegmentOf, Ld, HeaderOf, PhNum, IsWide, ImageAt;
    var h := HeaderOf(disk);
    PageDecides(h, m2);
    forall a | MAINARG <= a < MAINARG + ARGSIZE ensures Ld(m3, a) == disk(SECTSIZE + (a - MAINARG)) {
      assert SparedByAll(h, a);
      SparedSame(h, m2, IsWide(h), a);
    }
  }

  lemma SparedSame(m: Mem, m': Mem, wide: bool, a: int)
    requires GoodImage(m, wide) && SamePage(m, m') && Spared(m, wide, PhNum(m, wide), a)
    ensures Spared(m', wide, PhNum(m, wide), a)
  {
    hide InSpan, SegmentOf, Ld, PhNum;
    forall i: nat | i < PhNum(m, wide) ensures !InSpan(SegmentOf(m', wide, i), a) {
      assert ImageAt(m, wide, i);
      HeaderSegment(m, m', wide, i);
    }
  }

  /** The condition on an image depends on its header page only. */
  lemma GoodSame(m: Mem, m': Mem)
    requires GoodImage(m, IsWide(m)) && SamePage(m, m')
    ensures GoodImage(m', IsWide(m'))
    ensures forall i: nat :: i < PhNum(m, IsWide(m)) ==> SegmentOf(m', IsWide(m), i) == SegmentOf(m, IsWide(m), i)
  {
    hide InSpan, SegmentOf, Ld, Proper, Avoids, PhOff, IsWide;
    PageDecides(m, m');
    var wide := IsWide(m);
    forall i: nat | i < PhNum(m, wide) ensures SegmentOf(m', wide, i) == SegmentOf(m, wide, i) {
      assert ImageAt(m, wide, i);
      HeaderSegment(m, m', wide, i);
    }
    forall i: nat | i < PhNum(m', wide) ensures ImageAt(m', wide, i) {
      assert ImageAt(m, wide, i);
    }
  }

  lemma LoadedBy(m0: Mem, m1: Mem, m2: Mem, disk: Disk, s: Segment)
    requires Proper(s) &&
      Filled(m0, m1, disk, Down(s.paddr), Up(s.paddr + s.filesz), s.offset + Down(s.paddr) - s.paddr)
    requires Zeroed(m1, m2, s.paddr + s.filesz, s.paddr + s.memsz)
    ensures SegmentLoaded(m2, disk, s) && SameOutside(m0, m2, s)
  {
    hide Ld, Down, Up, FileByte;
    Rounding(s.paddr, s.filesz);
  }

  lemma StartSector(buf: int, offset: int)
    requires 0 <= buf && (buf - offset) % SECTSIZE == 0
    requires -ARGSIZE <= offset < 0x8000_0000 && (0 <= offset || offset % SECTSIZE == 0)
    ensures buf - buf % SECTSIZE == Down(buf)
    ensures 0 <= FirstSector(offset)
    ensures FirstSector(offset) * SECTSIZE == offset + (Down(buf) - buf) + ARGSIZE + SECTSIZE
    ensures Down(buf) == Down(buf) / SECTSIZE * SECTSIZE
  {
  }

  lemma NoWrap(buf: int, nbytes: int)
    requires 0 <= buf && buf + nbytes % W32 <= W32 - SECTSIZE
    ensures (buf + nbytes) % W32 == buf + nbytes % W32 && 0 <= Down(buf) && Up(buf + nbytes % W32) <= W32 - SECTSIZE
  {
    assert buf + nbytes == buf + nbytes % W32 + nbytes / W32 * W32;
  }

  /** Neither counter wraps inside the loop. */
  lemma NextSector(cur: int, sect: int, ed: int, first: int, lo: int)
    requires 0 <= lo <= cur < ed <= W32 - SECTSIZE && 0 <= sect
    requires sect * SECTSIZE == first + (cur - lo) + ARGSIZE + SECTSIZE && first < 0x8000_0000
    ensures (cur + SECTSIZE) % W32 == cur + SECTSIZE && (sect + 1) % W32 == sect + 1
  {
  }

  // ---- what the bounds on a segment are for ----

  /** The conversion of the offset to int finds the segment's sector exactly
      for offsets below 2^31. */
  lemma OffsetExact(offset: int)
    requires 0 <= offset < W32
    ensures FirstSector(ToInt(offset)) == offset / SECTSIZE + ARGSIZE / SECTSIZE + 1 <==> offset < 0x8000_0000
  {
  }

  /** copy_from_disk's loop ends after k sectors. */
  ghost predicate StopsAfter(buf: int, n: int, k: nat) {
    && (forall i :: 0 <= i < k ==> CursorAt(buf, i) < (buf + n) % W32)
    && CursorAt(buf, k) >= (buf + n) % W32
  }

  function CursorAt(buf: int, i: int): int { (Down(buf) + SECTSIZE * i) % W32 }

  /** The loop ends with the whole range read exactly when the range ends at
      least a sector below 2^32; else it reads too little or never ends. */
  lemma CopyExact(buf: int, n: int)
    requires 0 <= buf < W32 && 0 <= n < W32
    ensures (exists k :: StopsAfter(buf, n, k) && Down(buf) + SECTSIZE * k == Up(buf + n)) <==>
      buf + n <= W32 - SECTSIZE
    ensures W32 - SECTSIZE < buf + n < W32 ==> forall k: nat :: !StopsAfter(buf, n, k)
  {
    hide StopsAfter;
    forall k: nat | StopsAfter(buf, n, k) ensures !(W32 - SECTSIZE < buf + n < W32) {
      CursorAligned(buf, k);
      GuardAt(buf, n, k, 0);
    }
    if buf + n <= W32 - SECTSIZE {
      CopyStops(buf, n);
    } else {
      forall k: nat | StopsAfter(buf, n, k) ensures Down(buf) + SECTSIZE * k != Up(buf + n) {
        CopyFails(buf, n, k);
      }
    }
  }

  lemma CopyStops(buf: int, n: int)
    requires 0 <= buf < W32 && 0 <= n && buf + n <= W32 - SECTSIZE
    ensures exists k :: StopsAfter(buf, n, k) && Down(buf) + SECTSIZE * k == Up(buf + n)
  {
    var k: nat := (Up(buf + n) - Down(buf)) / SECTSIZE;
    assert StopsAfter(buf, n, k);
  }

  lemma CopyFails(buf: int, n: int, k: nat)
    requires 0 <= buf < W32 && 0 <= n < W32 && buf + n > W32 - SECTSIZE && StopsAfter(buf, n, k)
    ensures Down(buf) + SECTSIZE * k != Up(buf + n)
  {
    hide StopsAfter;
    CursorAligned(buf, k);
    GuardAt(buf, n, k, 0);
    GuardAt(buf, n, k, 1);
  }

  lemma GuardAt(buf: int, n: int, k: nat, i: nat)
    requires StopsAfter(buf, n, k)
    ensures i < k ==> CursorAt(buf, i) < (buf + n) % W32
    ensures CursorAt(buf, k) >= (buf + n) % W32
  {
  }

  lemma CursorAligned(buf: int, i: int)
    requires 0 <= buf
    ensures 0 <= CursorAt(buf, i) <= W32 - SECTSIZE
  {
    var x := buf / SECTSIZE + i;
    assert Down(buf) + SECTSIZE * i == SECTSIZE * x;
    assert SECTSIZE * x == SECTSIZE * (x % 0x80_0000) + W32 * (x / 0x80_0000);
  }

  lemma UpAbove(buf: int, nbytes: int)
    requires 0 <= nbytes
    ensures Down(buf) <= Up(buf + nbytes)
  {
  }

  lemma FilledNone(m: Mem, disk: Disk, lo: int, first: int)
    ensures Filled(m, m, disk, lo, lo, first)
  {
  }

  lemma FilledMore(m0: Mem, m: Mem, m': Mem, disk: Disk, lo: int, cur: int, first: int, sect: int)
    requires Filled(m0, m, disk, lo, cur, first) && SectorAt(m, m', disk, cur, sect) && lo <= cur
    requires sect * SECTSIZE == first + (cur - lo) + ARGSIZE + SECTSIZE
    ensures Filled(m0, m', disk, lo, cur + SECTSIZE, first)
  {
    hide Ld;
  }

  lemma UpAfter(k: int, ed: int)
    requires k * SECTSIZE < ed
    ensures (k + 1) * SECTSIZE <= Up(ed)
  {
  }

  lemma UpExact(k: int, ed: int, cur: int)
    requires cur == k * SECTSIZE && cur >= ed && cur <= Up(ed)
    ensures cur == Up(ed)
  {
  }

  lemma Rounding(paddr: int, filesz: int)
    requires 0 <= filesz
    ensures Down(paddr) <= paddr && paddr + filesz <= Up(paddr + filesz)
  {
  }
}
