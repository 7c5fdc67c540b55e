/** The x86_64 kernel half: the tables that start64.S leaves at PML4_ADDR and
    PDPT_ADDR, and the proof that they are a kernel tree. */
module Boot64 {
  import opened Bits
  import opened PageTree
  import opened MmuConfig
  import opened AddressSpaceFacts
  import opened PtWalkFacts

  const PML4_ADDR := 0x1000
  const PDPT_ADDR := 0x2000

  /** One PML4 entry, and a PDPT of 512 identity-mapped 1 GiB pages. */
  ghost function BootTables(): Mem {
    map[PML4_ADDR := SetEntry(Zeros(512), 0, PDPT_ADDR + PTE_P + PTE_W), PDPT_ADDR := Giants()]
  }

  function GiantEntry(i: nat): nat { i * 0x4000_0000 + PTE_P + PTE_W + PTE_PS }

  function Giants(): (pt: Table)
    ensures |pt| == 512 && forall i :: 0 <= i < 512 ==> pt[i] == GiantEntry(i)
  {
    seq(512, i requires i >= 0 => GiantEntry(i))
  }

  ghost function BootTabs(): Tabs {
    map[[] := PML4_ADDR, [0] := PDPT_ADDR]
  }

  lemma GiantFacts(i: nat)
    ensures var e := GiantEntry(i);
      Present(e) && Writable(e) && !User(e) && Large(e) && BaseOf(e) == i * 0x4000_0000
  {
    var e, b := GiantEntry(i), i * 0x4_0000;
    DivModUnique(e, 2, 2048 * b + 65, 1);
    DivModUnique(2048 * b + 65, 2, 1024 * b + 32, 1);
    DivModUnique(e, 4, 1024 * b + 32, 3);
    DivModUnique(1024 * b + 32, 2, 512 * b + 16, 0);
    DivModUnique(e, 128, 32 * b + 1, 3);
    DivModUnique(32 * b + 1, 2, 16 * b, 1);
    DivModUnique(e, PGSIZE, b, 131);
  }

  lemma Geo64()
    ensures GeoOf(GOOD64) == Geo(4, 512) && GOOD64 == MMU64
  {
    Pow2Values();
  }

  lemma BootIsClosed()
    ensures Closed(Geo(4, 512), BootTables(), BootTabs())
  {
    hide BaseOf, Present, Large, GiantEntry, SetEntry;
    var g, mem, t := Geo(4, 512), BootTables(), BootTabs();
    RootEntry();
    forall j: nat | j < 512 ensures ClosedEntry(g, t, [], j, mem[PML4_ADDR][j]) {
      assert [] + [j] == [j];
      ZeroEntry();
      InnerEntry(PDPT_ADDR, PTE_W);
    }
    forall j: nat | j < 512 ensures ClosedEntry(g, t, [0], j, mem[PDPT_ADDR][j]) {
      GiantFacts(j);
    }
    assert forall k :: k in t ==> k == [] || k == [0];
  }

  lemma RootEntry()
    ensures var pt := BootTables()[PML4_ADDR];
      |pt| == 512 && forall j :: 0 <= j < 512 ==> pt[j] == if j == 0 then PDPT_ADDR + PTE_P + PTE_W else 0
    ensures BootTables()[PDPT_ADDR] == Giants()
  {
  }

  /** The kernel area is the first PML4 entry. */
  lemma BootIndices(j: nat)
    requires KernelIndex(GOOD64, j)
    ensures j == 0
  {
    Pow2Values();
    assert Step(MMU64) == 0x80_0000_0000;
  }

  lemma BootArea(va: nat)
    requires InKernel(GOOD64, va)
    ensures va < 0x80_0000_0000
  {
  }

  lemma Number2(n: nat, a: nat, b: nat)
    ensures Number(n, [a, b]) == a * n + b
  {
    assert [a, b][..1] == [a] && [a][..0] == [];
    assert Number(n, []) == 0;
    assert Number(n, [a]) == 0 * n + a;
  }

  lemma Number4(a: nat, b: nat, c: nat, d: nat)
    ensures Number(512, [a, b, c, d]) == ((a * 512 + b) * 512 + c) * 512 + d
  {
    Number2(512, a, b);
    assert [a, b, c][..2] == [a, b] && [a, b, c, d][..3] == [a, b, c];
  }

  /** Below 512 GiB the last three indices spell the address. */
  lemma BootPath(va: nat, p: Path)
    requires va < 0x80_0000_0000 && va % PGSIZE == 0 && p == PathOf(GOOD64, va)
    ensures |p| == 4 && p[0] == 0 && p[1] < 512
    ensures p[1] * 0x4000_0000 + Number(512, p[2..]) * PGSIZE == va
  {
    hide IndexOf, Number, Good;
    Geo64();
    PathIsFull(GOOD64, va);
    Pow2Values();
    Limit64();
    FirstIndex(GOOD64, va);
    PathNumber(GOOD64, va, 4);
    assert p == [p[0], p[1], p[2], p[3]] && p[2..] == [p[2], p[3]];
    Number4(p[0], p[1], p[2], p[3]);
    Number2(512, p[2], p[3]);
  }

  lemma Limit64()
    ensures Limit(GOOD64) == 0x1_0000_0000_0000 && Step(GOOD64) == 0x80_0000_0000
  {
    Pow2Values();
  }

  /** Every kernel address is translated to itself by a 1 GiB page. */
  lemma BootPage(va: nat)
    requires InKernel(GOOD64, va) && va % PGSIZE == 0
    ensures View(GOOD64, BootTables(), PML4_ADDR, va) == Some(Xlat(va, true, false))
  {
    hide InKernel, PathOf, BootTables, Number, Giants;
    Geo64();
    var p := PathOf(GOOD64, va);
    BootArea(va);
    BootPath(va, p);
    BootWalk(p);
  }

  lemma BootWalk(p: Path)
    requires |p| == 4 && p[0] == 0 && p[1] < 512
    ensures Walk(Geo(4, 512), BootTables(), PML4_ADDR, 0, p, true, true) ==
      Some(Xlat(p[1] * 0x4000_0000 + Number(512, p[2..]) * PGSIZE, true, false))
  {
    hide BaseOf, Present, Large, Writable, User, GiantEntry, SetEntry, Number;
    var mem, g := BootTables(), Geo(4, 512);
    RootEntry();
    InnerEntry(PDPT_ADDR, PTE_W);
    GiantFacts(p[1]);
    WalkStep(g, mem, PML4_ADDR, 0, p, true, true);
    assert p[0..] == p;
    WalkStep(g, mem, PDPT_ADDR, 1, p, true, false);
  }

  /** The boot tables are what vme_init's x86_64 branch needs of them, in any
      memory that holds them. */
  lemma BootIsKernelTree(mem: Mem)
    requires Agree(BootTables(), mem, BootTabs())
    ensures KernelTree(GOOD64, mem, PML4_ADDR, BootTabs())
  {
    hide View, InKernel, KernelIndex, Closed;
    Geo64();
    BootIsClosed();
    forall j: nat | KernelIndex(GOOD64, j) ensures !User(KEntry(BootTables(), PML4_ADDR, j)) {
      BootIndices(j);
      RootEntry();
      InnerEntry(PDPT_ADDR, PTE_W);
    }
    forall va: nat | InKernel(GOOD64, va) && va % PGSIZE == 0
      ensures View(GOOD64, BootTables(), PML4_ADDR, va) == Some(Xlat(va, true, false))
    {
      BootPage(va);
    }
    KernelFrame(GOOD64, BootTables(), mem, PML4_ADDR, BootTabs());
  }

  /** The boot code's tables as values that can be stored. */
  function BootImage(): (mem: Mem)
    ensures mem == BootTables()
  {
    map[PML4_ADDR := SetEntry(Zeros(512), 0, PDPT_ADDR + PTE_P + PTE_W), PDPT_ADDR := Giants()]
  }

  lemma BootForest(mem: Mem, pool: Mem)
    requires mem == BootTables() && PoolOk(GeoOf(GOOD64), mem, pool)
    ensures Forest(GOOD64, mem, pool, PML4_ADDR, BootTabs(), map[])
  {
    hide KernelTree, PoolOk;
    BootIsKernelTree(mem);
    var t := BootTabs();
    assert t[[]] == PML4_ADDR && t[[0]] == PDPT_ADDR;
    assert mem.Keys == {PML4_ADDR, PDPT_ADDR};
    assert forall k :: k in t ==> k == [] || k == [0];
    assert Pages(t) == {PML4_ADDR, PDPT_ADDR};
  }
}
