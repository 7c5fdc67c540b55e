/** The two MMU configurations: the level tables, the memory areas, and how an
    address is cut into table indices. */
module MmuConfig {
  import opened Bits
  import opened PageTree

  datatype PtInfo = PtInfo(mask: nat, shift: nat, bits: nat)

  /** An area [start, end); an end of 0 stands for the end of the address space. */
  datatype VmArea = VmArea(start: nat, end: nat, kernel: bool)

  /** `word` is one past the largest uintptr_t. */
  datatype Mmu = Mmu(ptlevels: nat, word: nat, pgtables: seq<PtInfo>, areas: seq<VmArea>)

  const MMU32 := Mmu(2, 0x1_0000_0000,
    [ PtInfo(0x00000000,  0,  0),
      PtInfo(0xffc00000, 22, 10),
      PtInfo(0x003ff000, 12, 10) ],
    [ VmArea(0x40000000, 0x80000000, false),
      VmArea(0x00000000, 0x40000000, true),
      VmArea(0xfd000000, 0x00000000, true) ])

  const MMU64 := Mmu(4, 0x1_0000_0000_0000_0000,
    [ PtInfo(0x000000000000,  0, 0),
      PtInfo(0xff8000000000, 39, 9),
      PtInfo(0x007fc0000000, 30, 9),
      PtInfo(0x00003fe00000, 21, 9),
      PtInfo(0x0000001ff000, 12, 9) ],
    [ VmArea(0x100000000000, 0x108000000000, false),
      VmArea(0x000000000000, 0x008000000000, true) ])

  /** The address space's first unmapped-by-indices address: 2^32 or 2^48. */
  function Limit(m: Mmu): nat
    requires |m.pgtables| > 1
  {
    Pow2(m.pgtables[1].shift) * Pow2(m.pgtables[1].bits)
  }

  function EndOf(m: Mmu, a: VmArea): nat {
    if a.end == 0 then m.word else a.end
  }

  function GeoOf(m: Mmu): Geo
    requires |m.pgtables| > 1
  {
    Geo(m.ptlevels, Pow2(m.pgtables[1].bits))
  }

  /** Bytes covered by one entry of the level-1 table. */
  function Step(m: Mmu): nat
    requires |m.pgtables| > 1
  {
    Pow2(m.pgtables[1].shift)
  }

  /** What the proofs need of a configuration. The levels cut an address into
      equally wide fields above the page offset, and areas are made of whole
      level-1 entries, user and kernel ones of different entries. */
  ghost predicate Good(m: Mmu) {
    && m.ptlevels >= 2 && |m.pgtables| == m.ptlevels + 1
    && m.pgtables[0] == PtInfo(0, 0, 0)
    && (forall i :: 1 <= i <= m.ptlevels ==> LevelOk(m, i))
    && m.pgtables[m.ptlevels].shift == 12
    && m.pgtables[1].bits >= 1
    && Limit(m) <= m.word && m.word % PGSIZE == 0
    && |m.areas| > 1 && !m.areas[0].kernel && m.areas[1].kernel
    && (forall a :: 0 <= a < |m.areas| ==> AreaOk(m, m.areas[a]))
    && (forall a, b :: 0 <= a < b < |m.areas| ==> Apart(m, m.areas[a], m.areas[b]))
  }

  ghost predicate LevelOk(m: Mmu, i: int)
    requires 1 <= i <= m.ptlevels && |m.pgtables| == m.ptlevels + 1
  {
    var info := m.pgtables[i];
    && info.mask == (Pow2(info.bits) - 1) * Pow2(info.shift)
    && info.bits == m.pgtables[1].bits
    && (i < m.ptlevels ==> info.shift == m.pgtables[i + 1].shift + m.pgtables[i + 1].bits)
  }

  ghost predicate AreaOk(m: Mmu, a: VmArea)
    requires |m.pgtables| > 1
  {
    a.start < EndOf(m, a) <= Limit(m) && a.start % Step(m) == 0 && EndOf(m, a) % Step(m) == 0 &&
    a.end < m.word && (a.end == 0 ==> a.start > 0)
  }

  ghost predicate Apart(m: Mmu, a: VmArea, b: VmArea) {
    EndOf(m, a) <= b.start || EndOf(m, b) <= a.start
  }

  /** Both configurations of the source meet these conditions. */
  lemma ConfigsAreGood()
    ensures Good(MMU32) && Good(MMU64)
  {
    Config32IsGood();
    Config64IsGood();
  }

  /** A configuration that the walk and the areas can rely on. */
  type GoodMmu = m: Mmu | Good(m) ghost witness (ConfigsAreGood(); MMU32)

  const GOOD32: GoodMmu := (ConfigsAreGood(); MMU32)
  const GOOD64: GoodMmu := (ConfigsAreGood(); MMU64)

  lemma Config32IsGood()
    ensures Good(MMU32)
  {
    hide Pow2;
    Pow2Values();
    assert forall i :: 1 <= i <= 2 ==> LevelOk(MMU32, i);
    assert Limit(MMU32) == 0x1_0000_0000;
    assert AreaOk(MMU32, MMU32.areas[0]) && AreaOk(MMU32, MMU32.areas[1]) && AreaOk(MMU32, MMU32.areas[2]);
  }

  lemma Config64IsGood()
    ensures Good(MMU64)
  {
    hide Pow2;
    Pow2Values();
    assert forall i :: 1 <= i <= 4 ==> LevelOk(MMU64, i);
    assert Limit(MMU64) == 0x1_0000_0000_0000;
    assert AreaOk(MMU64, MMU64.areas[0]) && AreaOk(MMU64, MMU64.areas[1]);
  }

  // ---- addresses and paths ----

  /** The table index of an address at one level. */
  function IndexOf(addr: nat, info: PtInfo): nat {
    Shr(BitAnd(addr, info.mask), info.shift)
  }

  function PathOf(m: Mmu, addr: nat): (p: Path)
    requires |m.pgtables| == m.ptlevels + 1
    ensures |p| == m.ptlevels
  {
    PathTo(m, addr, m.ptlevels)
  }

  /** The indices of the first i levels. */
  function PathTo(m: Mmu, addr: nat, i: nat): (p: Path)
    requires i < |m.pgtables|
    ensures |p| == i
    ensures forall j :: 0 <= j < i ==> p[j] == IndexOf(addr, m.pgtables[j + 1])
  {
    if i == 0 then [] else PathTo(m, addr, i - 1) + [IndexOf(addr, m.pgtables[i])]
  }

  lemma IndexIsField(m: Mmu, addr: nat, i: nat)
    requires Good(m) && 1 <= i <= m.ptlevels
    ensures IndexOf(addr, m.pgtables[i]) == addr / Pow2(m.pgtables[i].shift) % GeoOf(m).n
    ensures IndexOf(addr, m.pgtables[i]) < GeoOf(m).n
  {
    var info := m.pgtables[i];
    assert LevelOk(m, i) && LevelOk(m, 1);
    FieldIndex(addr, info, Pow2(info.shift), Pow2(info.bits));
  }

  lemma FieldIndex(addr: nat, info: PtInfo, p: nat, q: nat)
    requires p == Pow2(info.shift) && q == Pow2(info.bits) && info.mask == (q - 1) * p
    ensures IndexOf(addr, info) == addr / p % q < q
  {
    hide Pow2, BitAnd;
    AndField(addr, info.bits, info.shift, p, q, info.mask);
    DivModUnique(addr / p % q * p, p, addr / p % q, 0);
  }

  lemma PathIsFull(m: Mmu, addr: nat)
    requires Good(m)
    ensures FullPath(GeoOf(m), PathOf(m, addr))
  {
    forall i | 0 <= i < m.ptlevels ensures PathOf(m, addr)[i] < GeoOf(m).n {
      IndexIsField(m, addr, i + 1);
    }
  }

  /** The first i indices spell the address without its low bits. */
  lemma {:induction false} PathNumber(m: Mmu, addr: nat, i: nat)
    requires Good(m) && addr < Limit(m) && 1 <= i <= m.ptlevels
    ensures Number(GeoOf(m).n, PathTo(m, addr, i)) == Shr(addr, m.pgtables[i].shift)
  {
    assert |m.pgtables| == m.ptlevels + 1;
    hide Pow2, BitAnd, IndexOf, Number, Good;
    PathStep(m, addr, i);
    LevelFacts(m, addr, i);
    if i == 1 {
      LimitIsTop(addr, Pow2(m.pgtables[1].shift), GeoOf(m).n);
      NumberEmpty(GeoOf(m).n);
    } else {
      PathNumber(m, addr, i - 1);
      JoinDigits(addr, Pow2(m.pgtables[i].shift), GeoOf(m).n);
    }
  }

  lemma PathStep(m: Mmu, addr: nat, i: nat)
    requires 1 <= i < |m.pgtables|
    ensures var n := Pow2(m.pgtables[1].bits);
      Number(n, PathTo(m, addr, i)) == Number(n, PathTo(m, addr, i - 1)) * n + IndexOf(addr, m.pgtables[i])
  {
    var p := PathTo(m, addr, i);
    assert p[..i - 1] == PathTo(m, addr, i - 1);
  }

  lemma NumberEmpty(n: nat)
    ensures Number(n, []) == 0
  {
  }

  /** A level's field, and its unit as a multiple of the next level's. */
  lemma LevelFacts(m: Mmu, addr: nat, i: nat)
    requires Good(m) && 1 <= i <= m.ptlevels
    ensures IndexOf(addr, m.pgtables[i]) == Shr(addr, m.pgtables[i].shift) % GeoOf(m).n
    ensures i > 1 ==> Pow2(m.pgtables[i - 1].shift) == Pow2(m.pgtables[i].shift) * GeoOf(m).n
  {
    IndexIsField(m, addr, i);
    if i > 1 {
      assert LevelOk(m, i) && LevelOk(m, i - 1);
      Pow2Add(m.pgtables[i].shift, m.pgtables[i].bits);
    }
  }

  lemma JoinDigits(addr: nat, s: nat, n: nat)
    requires s > 0 && n > 0
    ensures s * n > 0 && addr / (s * n) * n + addr / s % n == addr / s
  {
    DivDiv(addr, s, n);
  }

  lemma LimitIsTop(addr: nat, s: nat, n: nat)
    requires s > 0 && n > 0 && addr < s * n
    ensures addr / s % n == addr / s
  {
    DivUpper(addr, s, n);
    SmallMod(addr / s, n);
  }

  /** Different pages below the limit have different paths. */
  lemma PathInjective(m: Mmu, a: nat, b: nat)
    requires Good(m) && a < Limit(m) && b < Limit(m)
    requires PathOf(m, a) == PathOf(m, b)
    ensures a / PGSIZE == b / PGSIZE
  {
    hide Pow2;
    Pow2Values();
    PathNumber(m, a, m.ptlevels);
    PathNumber(m, b, m.ptlevels);
  }

  lemma FirstIndex(m: Mmu, addr: nat)
    requires Good(m) && addr < Limit(m)
    ensures PathOf(m, addr)[0] == addr / Step(m)
  {
    IndexIsField(m, addr, 1);
    LimitIsTop(addr, Step(m), GeoOf(m).n);
  }

  /** The first-level indices of the kernel areas. */
  ghost predicate KernelIndex(m: Mmu, j: nat)
    requires |m.pgtables| > 1
  {
    exists a :: 0 <= a < |m.areas| && m.areas[a].kernel && m.areas[a].start <= j * Step(m) < EndOf(m, m.areas[a])
  }

  predicate InUser(m: Mmu, va: nat) requires |m.areas| > 0 { m.areas[0].start <= va < EndOf(m, m.areas[0]) }

  ghost predicate InKernel(m: Mmu, va: nat) {
    exists a :: 0 <= a < |m.areas| && m.areas[a].kernel && m.areas[a].start <= va < EndOf(m, m.areas[a])
  }

  /** Rounding an address down to a level-1 entry stays in its area. */
  lemma SameArea(m: Mmu, a: VmArea, va: nat)
    requires Good(m) && AreaOk(m, a)
    ensures a.start <= va < EndOf(m, a) <==> a.start <= va / Step(m) * Step(m) < EndOf(m, a)
  {
    Aligned(va, Step(m), a.start);
    Aligned(va, Step(m), EndOf(m, a));
  }

  lemma Aligned(x: nat, s: nat, b: nat)
    requires s > 0 && b % s == 0
    ensures b <= x <==> b <= x / s * s
  {
    DivBounds(x, s, b / s);
    assert b == b / s * s;
    if b / s <= x / s {
      MulMono(b / s, x / s, s);
    }
    assert x / s * s <= x;
  }

  /** A kernel address has a kernel first index, a user address has not. */
  lemma KernelByIndex(m: Mmu, va: nat)
    requires Good(m) && va < Limit(m)
    ensures KernelIndex(m, PathOf(m, va)[0]) <==> InKernel(m, va)
    ensures InUser(m, va) ==> !KernelIndex(m, PathOf(m, va)[0])
  {
    FirstIndex(m, va);
    var j := va / Step(m);
    forall a | 0 <= a < |m.areas|
      ensures m.areas[a].start <= va < EndOf(m, m.areas[a]) <==> m.areas[a].start <= j * Step(m) < EndOf(m, m.areas[a])
    {
      assert AreaOk(m, m.areas[a]);
      SameArea(m, m.areas[a], va);
    }
    if InUser(m, va) {
      assert forall a :: 0 < a < |m.areas| ==> Apart(m, m.areas[0], m.areas[a]);
    }
  }
}
