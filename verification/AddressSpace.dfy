/** What one address space translates to, over values of memory. */
module AddressSpaceFacts {
  import opened Bits
  import opened PageTree
  import opened MmuConfig
  import opened PtWalkFacts

  class AddrSpace {
    var pgsize: nat
    var area: VmArea
    var ptr: nat

    constructor ()
      ensures ptr == 0
    {
      pgsize := 0;
      area := VmArea(0, 0, false);
      ptr := 0;
    }
  }

  const UFLAGS := PTE_W + PTE_U

  /** An area that a client may take for the user's: map accepts its addresses,
      and no others. */
  ghost predicate CoversUser(m: GoodMmu, area: VmArea) {
    forall va: nat :: area.start <= va < EndOf(m, area) <==> InUser(m, va)
  }

  lemma UserAreaCovers(m: GoodMmu)
    ensures CoversUser(m, m.areas[0])
  {
  }

  /** The processor's translation of va with a given root table. */
  ghost function View(m: GoodMmu, mem: Mem, root: nat, va: nat): Option<Xlat>
  {
    Walk(GeoOf(m), mem, root, 0, PathOf(m, va), true, true)
  }

  ghost function KEntry(mem: Mem, kpt: nat, j: nat): nat {
    if kpt in mem && j < |mem[kpt]| then mem[kpt][j] else 0
  }

  /** The kernel entries that protect copies into every root. */
  ghost function KentOf(m: GoodMmu, mem: Mem, kpt: nat): map<nat, nat>
  {
    map j: nat | j < GeoOf(m).n && KernelIndex(m, j) :: KEntry(mem, kpt, j)
  }

  /** The kernel's tables are closed, grant no user access at the root, and map
      every kernel page to itself, writable. */
  ghost predicate KernelTree(m: GoodMmu, mem: Mem, kpt: nat, ktabs: Tabs)
  {
    && [] in ktabs && ktabs[[]] == kpt
    && Closed(GeoOf(m), mem, ktabs)
    && (forall j: nat :: KernelIndex(m, j) ==> !User(KEntry(mem, kpt, j)))
    && (forall va: nat :: InKernel(m, va) && va % PGSIZE == 0 ==> View(m, mem, kpt, va) == Some(Xlat(va, true, false)))
  }

  /** An address space is the kernel's map on kernel addresses, and elsewhere
      the map from paths to last-level entries. */
  lemma ViewSplit(m: GoodMmu, mem: Mem, kpt: nat, ktabs: Tabs, t: Tabs, va: nat)
    requires KernelTree(m, mem, kpt, ktabs)
    requires Shape(GeoOf(m), mem, KentOf(m, mem, kpt), t, UFLAGS) && [] in t
    requires va < Limit(m)
    ensures FullPath(GeoOf(m), PathOf(m, va))
    ensures View(m, mem, t[[]], va) ==
      if InKernel(m, va) then View(m, mem, kpt, va)
      else Mapping(UFLAGS, LeafAt(GeoOf(m), mem, t, PathOf(m, va)))
  {
    hide Shape, KernelTree, Limit, InKernel;
    var g, kent, p := GeoOf(m), KentOf(m, mem, kpt), PathOf(m, va);
    PathIsFull(m, va);
    KernelByIndex(m, va);
    if InKernel(m, va) {
      ShapeAt(g, mem, kent, t, UFLAGS, []);
      KernelRoot(m, mem, kpt, ktabs);
      assert EntryOk(g, kent, t, UFLAGS, [], p[0], mem[t[[]]][p[0]]);
      WalkShared(g, mem, t[[]], kpt, p);
    } else {
      assert p[..0] == [] && p[0..] == p;
      WalkTree(g, mem, kent, t, UFLAGS, p, 0);
    }
  }

  lemma KernelRoot(m: GoodMmu, mem: Mem, kpt: nat, ktabs: Tabs)
    requires KernelTree(m, mem, kpt, ktabs)
    ensures kpt in mem && |mem[kpt]| == GeoOf(m).n
  {
  }

  /** While the kernel's pages are untouched, the kernel half stays. */
  lemma KernelFrame(m: GoodMmu, mem: Mem, mem': Mem, kpt: nat, ktabs: Tabs)
    requires KernelTree(m, mem, kpt, ktabs) && Agree(mem, mem', ktabs)
    ensures KernelTree(m, mem', kpt, ktabs)
    ensures KentOf(m, mem', kpt) == KentOf(m, mem, kpt)
    ensures forall va: nat :: View(m, mem', kpt, va) == View(m, mem, kpt, va)
  {
    hide Closed, InKernel, KernelIndex, PathOf;
    KernelRoot(m, mem, kpt, ktabs);
    assert kpt in Pages(ktabs) by { assert ktabs[[]] == kpt; }
    forall va: nat ensures View(m, mem', kpt, va) == View(m, mem, kpt, va) {
      WalkFrame(GeoOf(m), mem, mem', ktabs, [], PathOf(m, va), true, true);
    }
    ClosedFrame(GeoOf(m), mem, mem', ktabs);
  }

  /** An address space whose own pages and the kernel's are untouched stays. */
  lemma SpaceFrame(m: GoodMmu, mem: Mem, mem': Mem, kpt: nat, ktabs: Tabs, t: Tabs)
    requires KernelTree(m, mem, kpt, ktabs)
    requires Shape(GeoOf(m), mem, KentOf(m, mem, kpt), t, UFLAGS) && [] in t
    requires Agree(mem, mem', ktabs) && Agree(mem, mem', t)
    ensures Shape(GeoOf(m), mem', KentOf(m, mem', kpt), t, UFLAGS)
    ensures forall va :: 0 <= va < Limit(m) ==> View(m, mem', t[[]], va) == View(m, mem, t[[]], va)
  {
    hide Shape, KernelTree, Limit, View, KentOf, InKernel;
    KernelFrame(m, mem, mem', kpt, ktabs);
    Frame(GeoOf(m), mem, mem', KentOf(m, mem, kpt), t, UFLAGS);
    SameLeavesView(m, mem, mem', kpt, ktabs, t, t);
  }

  /** The same mappings give the same view. */
  lemma SameLeavesView(m: GoodMmu, mem: Mem, mem': Mem, kpt: nat, ktabs: Tabs, t: Tabs, t': Tabs)
    requires KernelTree(m, mem, kpt, ktabs) && KernelTree(m, mem', kpt, ktabs)
    requires Shape(GeoOf(m), mem, KentOf(m, mem, kpt), t, UFLAGS) && [] in t
    requires Shape(GeoOf(m), mem', KentOf(m, mem', kpt), t', UFLAGS) && [] in t'
    requires forall va: nat :: View(m, mem', kpt, va) == View(m, mem, kpt, va)
    requires SameLeaves(GeoOf(m), mem, t, mem', t')
    ensures forall va :: 0 <= va < Limit(m) ==> View(m, mem', t'[[]], va) == View(m, mem, t[[]], va)
  {
    hide Shape, KernelTree, Limit, View, KentOf, InKernel, LeafAt, Mapping, FullPath;
    forall va | 0 <= va < Limit(m) ensures View(m, mem', t'[[]], va) == View(m, mem, t[[]], va) {
      ViewSplit(m, mem, kpt, ktabs, t, va);
      ViewSplit(m, mem', kpt, ktabs, t', va);
    }
  }

  /** Writing the last-level entry of one user page changes its view only. */
  lemma SetLeafView(m: GoodMmu, mem: Mem, mem': Mem, kpt: nat, ktabs: Tabs, t: Tabs, va: nat, e: nat)
    requires KernelTree(m, mem, kpt, ktabs) && KernelTree(m, mem', kpt, ktabs)
    requires Shape(GeoOf(m), mem, KentOf(m, mem, kpt), t, UFLAGS) && [] in t
    requires Shape(GeoOf(m), mem', KentOf(m, mem', kpt), t, UFLAGS)
    requires forall v: nat :: View(m, mem', kpt, v) == View(m, mem, kpt, v)
    requires va % PGSIZE == 0 && va < Limit(m) && InUser(m, va) && FullPath(GeoOf(m), PathOf(m, va))
    requires forall q :: FullPath(GeoOf(m), q) ==>
      LeafAt(GeoOf(m), mem', t, q) == if q == PathOf(m, va) then e else LeafAt(GeoOf(m), mem, t, q)
    ensures forall v :: 0 <= v < Limit(m) && v % PGSIZE == 0 ==>
      View(m, mem', t[[]], v) == if v == va then Mapping(UFLAGS, e) else View(m, mem, t[[]], v)
  {
    hide Shape, KernelTree, Limit, View, KentOf, InKernel, LeafAt, Mapping, PathOf, FullPath;
    KernelByIndex(m, va);
    forall v: nat | v < Limit(m) && v % PGSIZE == 0
      ensures View(m, mem', t[[]], v) == if v == va then Mapping(UFLAGS, e) else View(m, mem, t[[]], v)
    {
      ViewSplit(m, mem, kpt, ktabs, t, v);
      ViewSplit(m, mem', kpt, ktabs, t, v);
      if PathOf(m, v) == PathOf(m, va) {
        PathInjective(m, v, va);
      }
    }
  }

  /** Tables that a walk to va would have to add. */
  ghost function TablesMissing(m: GoodMmu, t: Tabs, va: nat): nat {
    Missing(t, PathOf(m, va), m.ptlevels)
  }

  /** The tables on the way to va. */
  ghost function WayTo(m: GoodMmu, va: nat): set<Path> {
    Prefixes(PathOf(m, va), m.ptlevels)
  }

  /** The word that a completed walk to va points at. */
  ghost predicate LeafSlot(m: GoodMmu, mem: Mem, t: Tabs, va: nat, page: nat, index: nat) {
    var p := PathOf(m, va);
    && FullPath(GeoOf(m), p) && p[..m.ptlevels - 1] in t && page == t[p[..m.ptlevels - 1]] && index == p[m.ptlevels - 1]
    && page in mem && |mem[page]| == GeoOf(m).n
  }

  // ---- the ledger of table pages ----

  /** Every table page in use belongs to exactly one tree, the kernel's or one
      address space's, and the allocator has none of them. */
  ghost predicate Ledger(g: Geo, mem: Mem, pool: Mem, ktabs: Tabs, tabs: map<AddrSpace, Tabs>) {
    && PoolOk(g, mem, pool)
    && Pages(ktabs) <= mem.Keys
    && (forall a :: a in tabs ==> Pages(tabs[a]) <= mem.Keys && Pages(tabs[a]) !! Pages(ktabs))
    && (forall a, b :: a in tabs && b in tabs && a != b ==> Pages(tabs[a]) !! Pages(tabs[b]))
    && (forall x :: x in mem ==> x in Pages(ktabs) || exists a: AddrSpace :: a in tabs && x in Pages(tabs[a]))
  }

  lemma LedgerGrow(g: Geo, mem: Mem, pool: Mem, ktabs: Tabs, tabs: map<AddrSpace, Tabs>, id: AddrSpace,
                       mem': Mem, t': Tabs, pool': Mem, p: Path)
    requires Ledger(g, mem, pool, ktabs, tabs) && id in tabs
    requires PagesGrew(mem, tabs[id], pool, mem', t', pool', p) && PoolOk(g, mem', pool')
    ensures Ledger(g, mem', pool', ktabs, tabs[id := t'])
    ensures Pages(tabs[id]) <= Pages(t')
  {
    hide Ledger, Pages, PoolOk, PagesGrew;
    LedgerParts(g, mem, pool, ktabs, tabs);
    PagesGrewKeys(mem, tabs[id], pool, mem', t', pool', p);
    NewPages(mem, tabs[id], pool, mem', t', pool', p);
    GrowDisjoint(mem, pool, tabs, id, t');
    GrowCovered(mem, ktabs, tabs, id, mem', t');
    LedgerFold(g, mem', pool', ktabs, tabs[id := t']);
  }

  lemma LedgerParts(g: Geo, mem: Mem, pool: Mem, ktabs: Tabs, tabs: map<AddrSpace, Tabs>)
    requires Ledger(g, mem, pool, ktabs, tabs)
    ensures Pages(ktabs) <= mem.Keys && forall x :: x in pool ==> x !in mem
    ensures forall a :: a in tabs ==> Pages(tabs[a]) <= mem.Keys && Pages(tabs[a]) !! Pages(ktabs)
    ensures forall a, b :: a in tabs && b in tabs && a != b ==> Pages(tabs[a]) !! Pages(tabs[b])
    ensures forall x :: x in mem ==> x in Pages(ktabs) || exists a: AddrSpace :: a in tabs && x in Pages(tabs[a])
  {
  }

  lemma LedgerFold(g: Geo, mem: Mem, pool: Mem, ktabs: Tabs, tabs: map<AddrSpace, Tabs>)
    requires PoolOk(g, mem, pool) && Pages(ktabs) <= mem.Keys
    requires forall a :: a in tabs ==> Pages(tabs[a]) <= mem.Keys && Pages(tabs[a]) !! Pages(ktabs)
    requires forall a, b :: a in tabs && b in tabs && a != b ==> Pages(tabs[a]) !! Pages(tabs[b])
    requires forall x :: x in mem ==> x in Pages(ktabs) || exists a: AddrSpace :: a in tabs && x in Pages(tabs[a])
    ensures Ledger(g, mem, pool, ktabs, tabs)
  {
  }

  lemma PagesGrewKeys(mem: Mem, t: Tabs, pool: Mem, mem': Mem, t': Tabs, pool': Mem, p: Path)
    requires PagesGrew(mem, t, pool, mem', t', pool', p)
    ensures mem'.Keys == mem.Keys + Pages(t') && Pages(t) <= Pages(t')
  {
    PagesSub(t, t');
  }

  lemma GrowCovered(mem: Mem, ktabs: Tabs, tabs: map<AddrSpace, Tabs>, id: AddrSpace, mem': Mem, t': Tabs)
    requires id in tabs && mem'.Keys == mem.Keys + Pages(t') && Pages(tabs[id]) <= Pages(t')
    requires forall x :: x in mem ==> x in Pages(ktabs) || exists a: AddrSpace :: a in tabs && x in Pages(tabs[a])
    ensures var tabs' := tabs[id := t'];
      forall x :: x in mem' ==> x in Pages(ktabs) || exists a: AddrSpace :: a in tabs' && x in Pages(tabs'[a])
  {
    hide Pages;
    var tabs' := tabs[id := t'];
    forall x | x in mem' ensures x in Pages(ktabs) || exists a: AddrSpace :: a in tabs' && x in Pages(tabs'[a]) {
      if x in Pages(t') {
        assert id in tabs' && x in Pages(tabs'[id]);
      } else if x !in Pages(ktabs) {
        var a: AddrSpace :| a in tabs && x in Pages(tabs[a]);
        assert a in tabs' && x in Pages(tabs'[a]);
      }
    }
  }

  lemma GrowDisjoint(mem: Mem, pool: Mem, tabs: map<AddrSpace, Tabs>, id: AddrSpace, t': Tabs)
    requires id in tabs && forall x :: x in pool ==> x !in mem
    requires forall a :: a in tabs ==> Pages(tabs[a]) <= mem.Keys
    requires forall a, b :: a in tabs && b in tabs && a != b ==> Pages(tabs[a]) !! Pages(tabs[b])
    requires forall x :: x in Pages(t') ==> x in Pages(tabs[id]) || x in pool
    ensures var tabs' := tabs[id := t'];
      forall a, b :: a in tabs' && b in tabs' && a != b ==> Pages(tabs'[a]) !! Pages(tabs'[b])
  {
    hide Pages;
    forall a | a in tabs && a != id ensures Pages(tabs[a]) !! Pages(t') {
      assert Pages(tabs[a]) !! Pages(tabs[id]);
    }
  }

  lemma PagesSub(t: Tabs, t': Tabs)
    requires forall k :: k in t ==> k in t' && t'[k] == t[k]
    ensures Pages(t) <= Pages(t')
  {
    forall k | k in t ensures t[k] in Pages(t') {
      assert t'[k] == t[k];
    }
  }

  lemma NewPages(mem: Mem, t: Tabs, pool: Mem, mem': Mem, t': Tabs, pool': Mem, p: Path)
    requires PagesGrew(mem, t, pool, mem', t', pool', p)
    ensures forall x :: x in Pages(t') ==> x in Pages(t) || x in pool
  {
    forall k | k in t' ensures t'[k] in Pages(t) || t'[k] in pool {
      if k in t {
        assert t[k] in Pages(t);
      }
    }
  }

  /** The value of as->ptr for a user tree. */
  lemma UserRoot(root: nat)
    requires root % PGSIZE == 0
    ensures Present(root + PTE_P + PTE_U) && User(root + PTE_P + PTE_U) && BaseOf(root + PTE_P + PTE_U) == root
  {
    hide BaseOf;
    Flagged(root, PTE_P + PTE_U);
  }

  /** The last-level entry that map writes. */
  lemma UserLeaf(pa: nat, w: bool)
    requires pa % PGSIZE == 0
    ensures var e := pa + PTE_P + PTE_U + (if w then PTE_W else 0);
      Present(e) && e % PGSIZE < 8 && Mapping(UFLAGS, e) == Some(Xlat(pa, w, true))
  {
    hide BaseOf;
    Flagged(pa, PTE_P + PTE_U + if w then PTE_W else 0);
  }

  lemma MappingZero()
    ensures Mapping(UFLAGS, 0) == None
  {
  }

  /** A last-level entry of a user tree is present exactly when it maps. */
  lemma LeafPresent(e: nat)
    requires e == 0 || Present(e)
    ensures Present(e) <==> Mapping(UFLAGS, e).Some?
  {
    ZeroEntry();
  }

  // ---- all address spaces together ----

  ghost predicate UserTree(m: GoodMmu, mem: Mem, kpt: nat, t: Tabs)
  {
    [] in t && Shape(GeoOf(m), mem, KentOf(m, mem, kpt), t, UFLAGS)
  }

  ghost predicate Forest(m: GoodMmu, mem: Mem, pool: Mem, kpt: nat, ktabs: Tabs, tabs: map<AddrSpace, Tabs>)
  {
    && KernelTree(m, mem, kpt, ktabs)
    && Ledger(GeoOf(m), mem, pool, ktabs, tabs)
    && (forall a :: a in tabs ==> UserTree(m, mem, kpt, tabs[a]))
  }

  ghost predicate SameView(m: GoodMmu, mem: Mem, mem': Mem, root: nat)
  {
    forall va :: 0 <= va < Limit(m) ==> View(m, mem', root, va) == View(m, mem, root, va)
  }

  /** Every space of tabs translates as before. */
  ghost predicate SameViews(m: GoodMmu, mem: Mem, mem': Mem, tabs: map<AddrSpace, Tabs>)
  {
    forall a :: a in tabs ==> [] in tabs[a] && SameView(m, mem, mem', tabs[a][[]])
  }

  /** A walk that adds tables to one address space changes no translation of
      any, and keeps every invariant. */
  lemma AfterWalk(m: GoodMmu, mem: Mem, pool: Mem, kpt: nat, ktabs: Tabs, tabs: map<AddrSpace, Tabs>, id: AddrSpace,
                      mem': Mem, pool': Mem, t': Tabs, p: Path)
    requires Forest(m, mem, pool, kpt, ktabs, tabs) && id in tabs
    requires Grew(GeoOf(m), mem, tabs[id], pool, mem', t', pool', p) && PoolOk(GeoOf(m), mem', pool')
    requires Shape(GeoOf(m), mem', KentOf(m, mem, kpt), t', UFLAGS)
    ensures Forest(m, mem', pool', kpt, ktabs, tabs[id := t'])
    ensures forall a :: a in tabs ==>
      [] in tabs[id := t'][a] && tabs[id := t'][a][[]] == tabs[a][[]] && SameView(m, mem, mem', tabs[a][[]])
  {
    hide PoolOk, PagesGrew, Shape, KernelTree, SameLeaves, Agree, KentOf, View;
    var g := GeoOf(m);
    LedgerGrow(g, mem, pool, ktabs, tabs, id, mem', t', pool', p);
    KernelAgrees(g, mem, pool, ktabs, tabs, id, mem', t', pool', p);
    KernelFrame(m, mem, mem', kpt, ktabs);
    forall a | a in tabs
      ensures UserTree(m, mem', kpt, tabs[id := t'][a])
      ensures [] in tabs[id := t'][a] && tabs[id := t'][a][[]] == tabs[a][[]] && SameView(m, mem, mem', tabs[a][[]])
    {
      assert UserTree(m, mem, kpt, tabs[a]);
      if a == id {
        SameRoot(mem, tabs[id], pool, mem', t', pool', p);
        SameLeavesView(m, mem, mem', kpt, ktabs, tabs[id], t');
      } else {
        OthersAgree(g, mem, pool, ktabs, tabs, id, mem', t', pool', p, a);
        SpaceFrame(m, mem, mem', kpt, ktabs, tabs[a]);
      }
    }
  }

  lemma SameRoot(mem: Mem, t: Tabs, pool: Mem, mem': Mem, t': Tabs, pool': Mem, p: Path)
    requires PagesGrew(mem, t, pool, mem', t', pool', p) && [] in t
    ensures [] in t' && t'[[]] == t[[]]
  {
  }

  lemma KernelAgrees(g: Geo, mem: Mem, pool: Mem, ktabs: Tabs, tabs: map<AddrSpace, Tabs>, id: AddrSpace,
                         mem': Mem, t': Tabs, pool': Mem, p: Path)
    requires Ledger(g, mem, pool, ktabs, tabs) && id in tabs
    requires PagesGrew(mem, tabs[id], pool, mem', t', pool', p)
    ensures Agree(mem, mem', ktabs)
  {
    hide Pages;
  }

  lemma OthersAgree(g: Geo, mem: Mem, pool: Mem, ktabs: Tabs, tabs: map<AddrSpace, Tabs>, id: AddrSpace,
                        mem': Mem, t': Tabs, pool': Mem, p: Path, a: AddrSpace)
    requires Ledger(g, mem, pool, ktabs, tabs) && id in tabs && a in tabs && a != id
    requires PagesGrew(mem, tabs[id], pool, mem', t', pool', p)
    ensures Agree(mem, mem', tabs[a])
  {
    hide Pages;
    assert Pages(tabs[a]) !! Pages(tabs[id]);
  }

  /** Writing one last-level entry of one address space changes that page's
      translation there and nothing else, and keeps every invariant. */
  lemma AfterWrite(m: GoodMmu, mem: Mem, pool: Mem, kpt: nat, ktabs: Tabs, tabs: map<AddrSpace, Tabs>, id: AddrSpace,
                       va: nat, e: nat, page: nat, mem': Mem)
    requires Forest(m, mem, pool, kpt, ktabs, tabs) && id in tabs
    requires va % PGSIZE == 0 && va < Limit(m) && InUser(m, va) && FullPath(GeoOf(m), PathOf(m, va))
    requires e == 0 || (Present(e) && e % PGSIZE < 8)
    requires var p := PathOf(m, va);
      p[..m.ptlevels - 1] in tabs[id] && page == tabs[id][p[..m.ptlevels - 1]] &&
      page in mem && |mem[page]| == GeoOf(m).n && mem' == mem[page := SetEntry(mem[page], p[m.ptlevels - 1], e)]
    ensures Forest(m, mem', pool, kpt, ktabs, tabs)
    ensures forall a :: a in tabs && a != id ==> SameView(m, mem, mem', tabs[a][[]])
    ensures forall v :: 0 <= v < Limit(m) && v % PGSIZE == 0 ==>
      View(m, mem', tabs[id][[]], v) == if v == va then Mapping(UFLAGS, e) else View(m, mem, tabs[id][[]], v)
  {
    hide Shape, KernelTree, Agree, KentOf, View, PathOf, Mapping, LeafAt, PoolOk;
    var g := GeoOf(m);
    PageIn(tabs[id], PathOf(m, va)[..m.ptlevels - 1]);
    LedgerWrite(g, mem, pool, ktabs, tabs, id, page, mem');
    KernelFrame(m, mem, mem', kpt, ktabs);
    assert UserTree(m, mem, kpt, tabs[id]);
    SetLeaf(g, mem, KentOf(m, mem, kpt), tabs[id], UFLAGS, PathOf(m, va), e, mem');
    SetLeafView(m, mem, mem', kpt, ktabs, tabs[id], va, e);
    forall a | a in tabs && a != id
      ensures UserTree(m, mem', kpt, tabs[a]) && SameView(m, mem, mem', tabs[a][[]])
    {
      assert UserTree(m, mem, kpt, tabs[a]);
      SpaceFrame(m, mem, mem', kpt, ktabs, tabs[a]);
    }
  }

  lemma LedgerWrite(g: Geo, mem: Mem, pool: Mem, ktabs: Tabs, tabs: map<AddrSpace, Tabs>, id: AddrSpace, page: nat,
    mem': Mem)
    requires Ledger(g, mem, pool, ktabs, tabs) && id in tabs && page in Pages(tabs[id]) && page in mem
    requires mem'.Keys == mem.Keys && forall a :: a in mem && a != page ==> mem'[a] == mem[a]
    ensures Ledger(g, mem', pool, ktabs, tabs)
    ensures Agree(mem, mem', ktabs)
    ensures forall a :: a in tabs && a != id ==> Agree(mem, mem', tabs[a])
  {
    hide Pages;
    forall a | a in tabs && a != id ensures Agree(mem, mem', tabs[a]) {
      assert Pages(tabs[a]) !! Pages(tabs[id]);
    }
    assert mem'.Keys == mem.Keys;
    assert forall x :: x in mem' ==> x in mem;
  }

  lemma ForestAt(m: GoodMmu, mem: Mem, pool: Mem, kpt: nat, ktabs: Tabs, tabs: map<AddrSpace, Tabs>, a: AddrSpace)
    requires Forest(m, mem, pool, kpt, ktabs, tabs) && a in tabs
    ensures [] in tabs[a] && Shape(GeoOf(m), mem, KentOf(m, mem, kpt), tabs[a], UFLAGS)
    ensures Pages(tabs[a]) <= mem.Keys
    ensures KernelTree(m, mem, kpt, ktabs) && PoolOk(GeoOf(m), mem, pool)
  {
    assert UserTree(m, mem, kpt, tabs[a]);
  }

  lemma UserAddress(m: GoodMmu, va: nat)
    requires InUser(m, va)
    ensures va < Limit(m) && FullPath(GeoOf(m), PathOf(m, va)) && PathOf(m, va) != []
    ensures forall mem: Mem, kpt: nat :: PathOf(m, va)[0] !in KentOf(m, mem, kpt)
    ensures !InKernel(m, va)
  {
    assert AreaOk(m, m.areas[0]);
    PathIsFull(m, va);
    KernelByIndex(m, va);
  }

  lemma GrewKeys(g: Geo, mem: Mem, t: Tabs, pool: Mem, mem': Mem, t': Tabs, pool': Mem, p: Path)
    requires g.levels > 0 && Grew(g, mem, t, pool, mem', t', pool', p) && Pages(t) <= mem.Keys
    ensures mem'.Keys + pool'.Keys == mem.Keys + pool.Keys
  {
    NewPages(mem, t, pool, mem', t', pool', p);
  }

  lemma ViewAt(m: GoodMmu, mem: Mem, mem': Mem, root: nat, va: nat)
    requires SameView(m, mem, mem', root) && va < Limit(m)
    ensures View(m, mem', root, va) == View(m, mem, root, va)
  {
  }

  lemma SlotLeaf(m: GoodMmu, mem: Mem, kpt: nat, t: Tabs, p: Path, e: nat)
    requires Shape(GeoOf(m), mem, KentOf(m, mem, kpt), t, UFLAGS) && FullPath(GeoOf(m), p)
    requires p[..m.ptlevels - 1] in t && t[p[..m.ptlevels - 1]] in mem && |mem[t[p[..m.ptlevels - 1]]]| == GeoOf(m).n
    requires e == mem[t[p[..m.ptlevels - 1]]][p[m.ptlevels - 1]]
    requires p[0] !in KentOf(m, mem, kpt)
    ensures LeafAt(GeoOf(m), mem, t, p) == e
    ensures Present(e) <==> Mapping(UFLAGS, e).Some?
  {
    hide Shape;
    var k := p[..m.ptlevels - 1];
    ShapeAt(GeoOf(m), mem, KentOf(m, mem, kpt), t, UFLAGS, k);
    assert EntryOk(GeoOf(m), KentOf(m, mem, kpt), t, UFLAGS, k, p[m.ptlevels - 1], e);
    LeafPresent(e);
  }

  /** `prot & MMAP_WRITE` tests bit 1. */
  lemma WriteBit(prot: nat)
    ensures BitAnd(prot, 2) != 0 <==> prot / 2 % 2 == 1
  {
    AndStep(prot, 2);
    AndStep(prot / 2, 1);
    AndZero(prot / 2 / 2);
  }

  // ---- protect ----

  /** j is a first-level index of one of the first i areas, a kernel one. */
  ghost predicate KernelBefore(m: GoodMmu, i: nat, j: nat)
    requires i <= |m.areas|
  {
    exists a :: 0 <= a < i && m.areas[a].kernel && m.areas[a].start <= j * Step(m) < EndOf(m, m.areas[a])
  }

  function OneTable(page: nat): Tabs { map[[] := page] }

  lemma OneTableHas(page: nat)
    ensures OneTable(page).Keys == {[]} && OneTable(page)[[]] == page
  {
  }

  /** The root that protect fills: kernel entries copied, the rest zero. */
  ghost predicate FreshRoot(m: GoodMmu, mem: Mem, kpt: nat, pt: Table) {
    |pt| == GeoOf(m).n &&
    forall j: nat :: j < |pt| ==> pt[j] == if KernelIndex(m, j) then KEntry(mem, kpt, j) else 0
  }

  lemma FreshTree(m: GoodMmu, mem: Mem, kpt: nat, upt: nat)
    requires upt > 0 && upt % PGSIZE == 0 && upt in mem && FreshRoot(m, mem, kpt, mem[upt])
    ensures UserTree(m, mem, kpt, OneTable(upt))
  {
    hide KernelIndex, KEntry;
    var g, kent, t: Tabs := GeoOf(m), KentOf(m, mem, kpt), OneTable(upt);
    forall j: nat | j < g.n ensures EntryOk(g, kent, t, UFLAGS, [], j, mem[upt][j]) {
      assert [] + [j] != [];
    }
    assert TableOk(g, mem, kent, t, UFLAGS, []);
  }

  /** A fresh address space sees the kernel and nothing else. */
  lemma FreshView(m: GoodMmu, mem: Mem, pool: Mem, kpt: nat, ktabs: Tabs, tabs: map<AddrSpace, Tabs>, id: AddrSpace,
    upt: nat, va: nat)
    requires Forest(m, mem, pool, kpt, ktabs, tabs) && id in tabs && tabs[id] == OneTable(upt)
    requires va < Limit(m) && va % PGSIZE == 0
    ensures View(m, mem, upt, va) == if InKernel(m, va) then Some(Xlat(va, true, false)) else None
  {
    hide Forest, Shape, KernelTree, View, InKernel, Limit, KentOf;
    ForestAt(m, mem, pool, kpt, ktabs, tabs, id);
    ViewSplit(m, mem, kpt, ktabs, OneTable(upt), va);
    if InKernel(m, va) {
      KernelMaps(m, mem, kpt, ktabs, va);
    }
    var k := PathOf(m, va)[..m.ptlevels - 1];
    assert |k| == m.ptlevels - 1 >= 1;
    assert k != [];
    MappingZero();
  }

  lemma KernelMaps(m: GoodMmu, mem: Mem, kpt: nat, ktabs: Tabs, va: nat)
    requires KernelTree(m, mem, kpt, ktabs) && InKernel(m, va) && va % PGSIZE == 0
    ensures View(m, mem, kpt, va) == Some(Xlat(va, true, false))
  {
  }

  lemma AfterProtect(m: GoodMmu, mem: Mem, pool: Mem, kpt: nat, ktabs: Tabs, tabs: map<AddrSpace, Tabs>, id: AddrSpace,
                     upt: nat, pt: Table, mem': Mem, pool': Mem)
    requires Forest(m, mem, pool, kpt, ktabs, tabs) && id !in tabs
    requires upt in pool && pool' == pool - {upt} && mem' == mem[upt := pt] && FreshRoot(m, mem', kpt, pt)
    ensures Forest(m, mem', pool', kpt, ktabs, tabs[id := OneTable(upt)])
    ensures SameViews(m, mem, mem', tabs)
  {
    hide Shape, KernelTree, Agree, KentOf, View, KernelIndex, KEntry;
    var tabs' := tabs[id := OneTable(upt)];
    LedgerAdd(GeoOf(m), mem, pool, ktabs, tabs, id, upt, pt);
    KernelFrame(m, mem, mem', kpt, ktabs);
    FreshTree(m, mem', kpt, upt);
    forall a | a in tabs ensures UserTree(m, mem', kpt, tabs'[a]) && [] in tabs[a] &&
      SameView(m, mem, mem', tabs[a][[]]) {
      assert UserTree(m, mem, kpt, tabs[a]);
      SpaceFrame(m, mem, mem', kpt, ktabs, tabs[a]);
    }
  }

  lemma LedgerAdd(g: Geo, mem: Mem, pool: Mem, ktabs: Tabs, tabs: map<AddrSpace, Tabs>, id: AddrSpace, upt: nat,
    pt: Table)
    requires Ledger(g, mem, pool, ktabs, tabs) && id !in tabs && upt in pool
    ensures Ledger(g, mem[upt := pt], pool - {upt}, ktabs, tabs[id := OneTable(upt)])
    ensures Agree(mem, mem[upt := pt], ktabs)
    ensures forall a :: a in tabs ==> Agree(mem, mem[upt := pt], tabs[a])
    ensures upt > 0 && upt % PGSIZE == 0 && upt !in mem
  {
    hide Pages, Ledger, OneTable;
    var t := OneTable(upt);
    var mem', tabs', pool' := mem[upt := pt], tabs[id := t], pool - {upt};
    LedgerParts(g, mem, pool, ktabs, tabs);
    PoolTakes(g, mem, pool, ktabs, tabs, upt, pt);
    OneTableHas(upt);
    PagesOne(t, upt);
    AddCovered(mem, ktabs, tabs, id, upt, pt);
    AddDisjoint(mem, ktabs, tabs, id, upt, pt);
    LedgerFold(g, mem', pool', ktabs, tabs');
  }

  lemma PoolTakes(g: Geo, mem: Mem, pool: Mem, ktabs: Tabs, tabs: map<AddrSpace, Tabs>, upt: nat, pt: Table)
    requires Ledger(g, mem, pool, ktabs, tabs) && upt in pool
    ensures upt > 0 && upt % PGSIZE == 0 && upt !in mem && PoolOk(g, mem[upt := pt], pool - {upt})
    ensures Agree(mem, mem[upt := pt], ktabs)
    ensures forall a :: a in tabs ==> Agree(mem, mem[upt := pt], tabs[a])
  {
    hide Pages;
  }

  lemma AddDisjoint(mem: Mem, ktabs: Tabs, tabs: map<AddrSpace, Tabs>, id: AddrSpace, upt: nat, pt: Table)
    requires id !in tabs && upt !in mem && Pages(ktabs) <= mem.Keys && Pages(OneTable(upt)) == {upt}
    requires forall a :: a in tabs ==> Pages(tabs[a]) <= mem.Keys && Pages(tabs[a]) !! Pages(ktabs)
    requires forall a, b :: a in tabs && b in tabs && a != b ==> Pages(tabs[a]) !! Pages(tabs[b])
    ensures var tabs', mem' := tabs[id := OneTable(upt)], mem[upt := pt];
      && (forall a :: a in tabs' ==> Pages(tabs'[a]) <= mem'.Keys && Pages(tabs'[a]) !! Pages(ktabs))
      && (forall a, b :: a in tabs' && b in tabs' && a != b ==> Pages(tabs'[a]) !! Pages(tabs'[b]))
  {
    hide Pages, OneTable;
  }

  lemma AddCovered(mem: Mem, ktabs: Tabs, tabs: map<AddrSpace, Tabs>, id: AddrSpace, upt: nat, pt: Table)
    requires id !in tabs && Pages(OneTable(upt)) == {upt}
    requires forall x :: x in mem ==> x in Pages(ktabs) || exists a: AddrSpace :: a in tabs && x in Pages(tabs[a])
    ensures var tabs', mem' := tabs[id := OneTable(upt)], mem[upt := pt];
      forall x :: x in mem' ==> x in Pages(ktabs) || exists a: AddrSpace :: a in tabs' && x in Pages(tabs'[a])
  {
    hide Pages, OneTable;
    var tabs', mem' := tabs[id := OneTable(upt)], mem[upt := pt];
    forall x | x in mem' ensures x in Pages(ktabs) || exists a :: a in tabs' && x in Pages(tabs'[a]) {
      if x == upt {
        assert id in tabs' && x in Pages(tabs'[id]);
      } else if x !in Pages(ktabs) {
        var a: AddrSpace :| a in tabs && x in Pages(tabs[a]);
        assert a in tabs' && x in Pages(tabs'[a]);
      }
    }
  }

  lemma PagesOne(t: Tabs, page: nat)
    requires t == map[[] := page]
    ensures Pages(t) == {page}
  {
    assert t[[]] == page;
  }

  // ---- the loops over an area ----

  /** The pages from start to end, one after the other. */
  ghost predicate InOrder(visited: seq<nat>, start: nat, end: nat) {
    end == start + PGSIZE * |visited| && forall k :: 0 <= k < |visited| ==> visited[k] == start + PGSIZE * k
  }

  /** `cur != end; cur += step` with cur wrapping at the end of the address
      space: pos counts on without wrapping, and the test stops it exactly at
      the area's end. */
  lemma AreaLoop(m: GoodMmu, a: VmArea, pos: nat, step: nat)
    requires AreaOk(m, a) && a.start <= pos <= EndOf(m, a)
    requires step > 0 && pos % step == 0 && EndOf(m, a) % step == 0
    ensures pos % m.word == a.end <==> pos == EndOf(m, a)
    ensures pos < EndOf(m, a) ==>
      pos < m.word && pos % m.word == pos && pos + step <= EndOf(m, a) && (pos + step) % step == 0
    ensures (pos % m.word + step) % m.word == (pos + step) % m.word
  {
    if pos < m.word {
      DivModUnique(pos, m.word, 0, pos);
    } else {
      DivModUnique(pos, m.word, 1, 0);
      ModAdd(step, 1, m.word);
    }
    if pos < EndOf(m, a) {
      NextMultiple(pos, EndOf(m, a), step);
      ModAdd(pos, 1, step);
    }
  }

  lemma NextMultiple(x: nat, y: nat, s: nat)
    requires s > 0 && x % s == 0 && y % s == 0 && x < y
    ensures x + s <= y
  {
    DivBounds(x, s, y / s);
    MulMono(x / s + 1, y / s, s);
    assert (x / s + 1) * s == x / s * s + s;
  }

  lemma ForestKernel(m: GoodMmu, mem: Mem, pool: Mem, kpt: nat, ktabs: Tabs, tabs: map<AddrSpace, Tabs>)
    requires Forest(m, mem, pool, kpt, ktabs, tabs)
    ensures KernelTree(m, mem, kpt, ktabs) && PoolOk(GeoOf(m), mem, pool)
  {
  }

  // ---- copying kernel entries ----

  /** The entries copied once areas below i are done and area i up to pos. */
  ghost predicate Copied(m: GoodMmu, k: Table, pt: Table, i: nat, pos: nat)
    requires i <= |m.areas| && |k| == |pt|
  {
    forall j: nat :: j < |pt| ==> pt[j] == if KernelBefore(m, i, j) || InPart(m, i, pos, j) then k[j] else 0
  }

  ghost predicate InPart(m: GoodMmu, i: nat, pos: nat, j: nat) {
    i < |m.areas| && m.areas[i].start <= j * Step(m) < pos
  }

  lemma GoodArea(m: GoodMmu, i: nat)
    requires i < |m.areas|
    ensures AreaOk(m, m.areas[i])
    ensures m.areas[i].start <= EndOf(m, m.areas[i]) && Step(m) > 0
    ensures m.areas[i].start % Step(m) == 0 && EndOf(m, m.areas[i]) % Step(m) == 0
    ensures m.areas[i].start < m.word && m.areas[i].start % m.word == m.areas[i].start
  {
    assert AreaOk(m, m.areas[i]);
    DivModUnique(m.areas[i].start, m.word, 0, m.areas[i].start);
  }

  /** Areas are made of whole pages. */
  lemma AlignedStart(m: GoodMmu, i: nat)
    requires i < |m.areas|
    ensures m.areas[i].start % PGSIZE == 0 && EndOf(m, m.areas[i]) % PGSIZE == 0
  {
    GoodArea(m, i);
    StepIsPages(m);
    MultipleOf(m.areas[i].start, Step(m), PGSIZE);
    MultipleOf(EndOf(m, m.areas[i]), Step(m), PGSIZE);
  }

  lemma StepIsPages(m: GoodMmu)
    ensures Step(m) % PGSIZE == 0 && Step(m) > 0
  {
    hide Pow2;
    ShiftAtLeast12(m, 1);
    Pow2Add(m.pgtables[1].shift - 12, 12);
    Pow2Values();
    DivModUnique(Step(m), PGSIZE, Pow2(m.pgtables[1].shift - 12), 0);
  }

  lemma {:induction false} ShiftAtLeast12(m: GoodMmu, i: nat)
    requires 1 <= i <= m.ptlevels
    ensures m.pgtables[i].shift >= 12
    decreases m.ptlevels - i
  {
    assert LevelOk(m, i);
    if i < m.ptlevels {
      ShiftAtLeast12(m, i + 1);
    }
  }

  lemma MultipleOf(x: nat, s: nat, p: nat)
    requires s > 0 && p > 0 && x % s == 0 && s % p == 0
    ensures x % p == 0
  {
    var q := x / s * (s / p);
    assert x == q * p;
    assert q >= 0 by { MulMono(0, x / s, s / p); }
    DivModUnique(x, p, q, 0);
  }

  lemma CopyNothing(m: GoodMmu, k: Table, pt: Table)
    requires |k| == GeoOf(m).n && pt == Zeros(GeoOf(m).n)
    ensures Copied(m, k, pt, 0, 0)
  {
  }

  lemma CopyStarts(m: GoodMmu, k: Table, pt: Table, i: nat)
    requires i < |m.areas| && |k| == |pt| && Copied(m, k, pt, i, 0)
    ensures Copied(m, k, pt, i, m.areas[i].start)
  {
    hide KernelBefore, Step;
  }

  /** The entry at pos is the next one, and nothing else becomes covered. */
  lemma CopyNext(m: GoodMmu, k: Table, pt: Table, i: nat, pos: nat)
    requires i < |m.areas| && m.areas[i].kernel && |k| == |pt| == GeoOf(m).n && Copied(m, k, pt, i, pos)
    requires m.areas[i].start <= pos < EndOf(m, m.areas[i]) && pos % Step(m) == 0
    ensures var index := IndexOf(pos, m.pgtables[1]);
      index < |pt| && Copied(m, k, SetEntry(pt, index, k[index]), i, pos + Step(m))
  {
    hide KernelBefore, Step, IndexOf, EndOf;
    var s := Step(m);
    FirstLevelIndex(m, i, pos);
    forall j: nat | j < |pt| ensures j * s < pos + s <==> j * s < pos || j == pos / s {
      StepOver(j, s, pos);
    }
  }

  lemma FirstLevelIndex(m: GoodMmu, i: nat, pos: nat)
    requires i < |m.areas| && m.areas[i].start <= pos < EndOf(m, m.areas[i])
    ensures IndexOf(pos, m.pgtables[1]) == pos / Step(m) < GeoOf(m).n
    ensures Step(m) > 0
  {
    GoodArea(m, i);
    FirstIndex(m, pos);
    IndexIsField(m, pos, 1);
  }

  lemma StepOver(j: nat, s: nat, pos: nat)
    requires s > 0 && pos % s == 0
    ensures j * s < pos + s <==> j * s < pos || j == pos / s
  {
    assert pos == pos / s * s;
    if j < pos / s {
      MulMono(j + 1, pos / s, s);
      assert (j + 1) * s == j * s + s;
    } else if j > pos / s {
      MulMono(pos / s + 1, j, s);
      assert (pos / s + 1) * s == pos / s * s + s;
    }
  }

  lemma CopyEnds(m: GoodMmu, k: Table, pt: Table, i: nat, end: nat)
    requires i < |m.areas| && |k| == |pt| && end == EndOf(m, m.areas[i])
    requires if m.areas[i].kernel then Copied(m, k, pt, i, end) else Copied(m, k, pt, i, 0)
    ensures Copied(m, k, pt, i + 1, 0)
  {
    hide Step;
    forall j: nat
      ensures KernelBefore(m, i + 1, j) <==> KernelBefore(m, i, j) || (m.areas[i].kernel && InPart(m, i, end, j))
    {
    }
  }

  lemma CopyDone(m: GoodMmu, mem: Mem, kpt: nat, pt: Table)
    requires kpt in mem && |mem[kpt]| == |pt| == GeoOf(m).n
    requires Copied(m, mem[kpt], pt, |m.areas|, 0)
    ensures FreshRoot(m, mem, kpt, pt)
  {
    hide Step;
  }

  // ---- teardown ----

  /** `o` lists the tables at and below k, each once, none before a table below it. */
  ghost predicate FreeOrder(t: Tabs, k: Path, o: seq<Path>) {
    (forall q :: q in o <==> q in t && Below(k, q)) && ChildrenFirst(o)
  }

  ghost predicate ChildrenFirst(o: seq<Path>) {
    forall i, j :: 0 <= i < j < |o| ==> !Below(o[i], o[j])
  }

  /** The same for the tables below the first i entries of k. */
  ghost predicate FreeOrderFirst(t: Tabs, k: Path, i: nat, o: seq<Path>) {
    (forall q :: q in o <==> q in t && Below(k, q) && |q| > |k| && q[|k|] < i) && ChildrenFirst(o)
  }

  lemma FreeOrderNext(t: Tabs, k: Path, i: nat, o: seq<Path>, o': seq<Path>)
    requires FreeOrderFirst(t, k, i, o) && FreeOrder(t, k + [i], o')
    ensures FreeOrderFirst(t, k, i + 1, o + o')
  {
    forall q ensures q in o + o' <==> q in t && Below(k, q) && |q| > |k| && q[|k|] < i + 1 {
      BelowChild(k, i, q);
    }
    forall x, y | x in o && y in o' ensures !Below(x, y) {
      BelowChild(k, i, y);
      Siblings(k, x, y);
    }
  }

  lemma Siblings(k: Path, x: Path, y: Path)
    requires |x| > |k| && |y| > |k| && x[|k|] != y[|k|]
    ensures !Below(x, y)
  {
    assert |x| <= |y| ==> y[..|x|][|k|] == y[|k|];
  }

  lemma BelowChild(k: Path, i: nat, q: Path)
    ensures Below(k + [i], q) <==> Below(k, q) && |q| > |k| && q[|k|] == i
  {
    if |q| > |k| {
      assert q[..|k| + 1] == q[..|k|] + [q[|k|]];
      LastInjective(q[..|k|], q[|k|], k, i);
    }
  }

  lemma FreeOrderWhole(g: Geo, t: Tabs, k: Path, o: seq<Path>)
    requires k in t && FreeOrderFirst(t, k, g.n, o) && Keys(g, t)
    ensures FreeOrder(t, k, o + [k])
  {
    forall q ensures q in o + [k] <==> q in t && Below(k, q) {
      if q in t && Below(k, q) && q != k {
        assert KeyOk(g, t, q);
        assert |q| > |k|;
        assert q[|k|] < g.n;
      }
    }
  }

  lemma FreeOrderEmpty(g: Geo, t: Tabs, k: Path)
    requires k !in t && Keys(g, t)
    ensures FreeOrder(t, k, []) && Sub(t, k) == {}
  {
    NoneBelow(g, t, k);
  }

  /** The pages below k still hold what they held in m0. */
  ghost predicate Intact(mem: Mem, m0: Mem, t: Tabs, k: Path) {
    forall q :: q in t && Below(k, q) ==> t[q] in mem && t[q] in m0 && mem[t[q]] == m0[t[q]]
  }

  lemma IntactChild(mem: Mem, mem': Mem, m0: Mem, t: Tabs, k: Path, i: nat)
    requires Intact(mem, m0, t, k) && Injective(t) && mem' == mem - SubFirst(t, k, i)
    ensures Intact(mem', m0, t, k + [i])
    ensures k in t ==> t[k] in mem' && mem'[t[k]] == mem[t[k]]
  {
    forall q | q in t && Below(k + [i], q)
      ensures t[q] in mem' && t[q] in m0 && mem'[t[q]] == m0[t[q]]
    {
      BelowChild(k, i, q);
    }
    assert Below(k, k);
  }

  /** What teardown may assume of the tree it frees. */
  ghost predicate Doomed(m: GoodMmu, m0: Mem, kent: map<nat, nat>, t: Tabs) {
    Shape(GeoOf(m), m0, kent, t, UFLAGS) && forall j :: j in kent ==> !User(kent[j])
  }

  /** An entry that teardown follows leads to the child table; one that it
      skips has no tables below it. */
  lemma TeardownEntry(m: GoodMmu, m0: Mem, kent: map<nat, nat>, t: Tabs, k: Path, j: nat)
    requires Doomed(m, m0, kent, t) && k in t && j < GeoOf(m).n
    ensures t[k] in m0 && |m0[t[k]]| == GeoOf(m).n
    ensures var e := m0[t[k]][j];
      if Present(e) && User(e) then
        if |k| + 1 < m.ptlevels then k + [j] in t && t[k + [j]] == BaseOf(e) else k + [j] !in t
      else k + [j] !in t
  {
    hide Shape, EntryOk, Present, User, BaseOf;
    var g := GeoOf(m);
    ShapeAt(g, m0, kent, t, UFLAGS, k);
    if k + [j] in t {
      ShapeAt(g, m0, kent, t, UFLAGS, k + [j]);
    }
    FollowedEntry(g, kent, t, k, j, m0[t[k]][j]);
  }

  lemma FollowedEntry(g: Geo, kent: map<nat, nat>, t: Tabs, k: Path, j: nat, e: nat)
    requires EntryOk(g, kent, t, UFLAGS, k, j, e) && forall i :: i in kent ==> !User(kent[i])
    requires k + [j] in t ==> t[k + [j]] % PGSIZE == 0 && KeyOk(g, t, k + [j])
    ensures if Present(e) && User(e) then
        if |k| + 1 < g.levels then k + [j] in t && t[k + [j]] == BaseOf(e) else k + [j] !in t
      else k + [j] !in t
  {
    hide Present, User, BaseOf;
    ZeroEntry();
    if k + [j] in t {
      InnerEntry(t[k + [j]], UFLAGS);
    }
  }

  /** Dropping one address space's pages keeps all the others. */
  lemma AfterUnprotect(m: GoodMmu, mem: Mem, pool: Mem, kpt: nat, ktabs: Tabs, tabs: map<AddrSpace, Tabs>,
    id: AddrSpace,
                       mem': Mem, pool': Mem)
    requires Forest(m, mem, pool, kpt, ktabs, tabs) && id in tabs
    requires mem' == mem - Pages(tabs[id])
    requires pool'.Keys == pool.Keys + Pages(tabs[id])
    requires PoolOk(GeoOf(m), mem', pool')
    ensures Forest(m, mem', pool', kpt, ktabs, tabs - {id})
    ensures forall a :: a in tabs && a != id ==> SameView(m, mem, mem', tabs[a][[]])
  {
    hide Shape, KernelTree, KentOf, View, PoolOk;
    LedgerDrop(GeoOf(m), mem, pool, ktabs, tabs, id, mem', pool');
    KernelFrame(m, mem, mem', kpt, ktabs);
    forall a | a in tabs && a != id
      ensures UserTree(m, mem', kpt, tabs[a]) && SameView(m, mem, mem', tabs[a][[]])
    {
      assert UserTree(m, mem, kpt, tabs[a]);
      SpaceFrame(m, mem, mem', kpt, ktabs, tabs[a]);
    }
  }

  lemma LedgerDrop(g: Geo, mem: Mem, pool: Mem, ktabs: Tabs, tabs: map<AddrSpace, Tabs>, id: AddrSpace, mem': Mem,
    pool': Mem)
    requires Ledger(g, mem, pool, ktabs, tabs) && id in tabs
    requires mem' == mem - Pages(tabs[id]) && PoolOk(g, mem', pool')
    ensures Ledger(g, mem', pool', ktabs, tabs - {id})
    ensures Agree(mem, mem', ktabs)
    ensures forall a :: a in tabs && a != id ==> Agree(mem, mem', tabs[a])
  {
    hide Pages, PoolOk, Ledger;
    LedgerParts(g, mem, pool, ktabs, tabs);
    forall a | a in tabs && a != id ensures Pages(tabs[a]) !! Pages(tabs[id]) && Pages(tabs[a]) <= mem'.Keys {
    }
    DropCovered(mem, ktabs, tabs, id, mem');
    LedgerFold(g, mem', pool', ktabs, tabs - {id});
  }

  lemma DropCovered(mem: Mem, ktabs: Tabs, tabs: map<AddrSpace, Tabs>, id: AddrSpace, mem': Mem)
    requires id in tabs && mem' == mem - Pages(tabs[id])
    requires forall x :: x in mem ==> x in Pages(ktabs) || exists a: AddrSpace :: a in tabs && x in Pages(tabs[a])
    ensures var tabs' := tabs - {id};
      forall x :: x in mem' ==> x in Pages(ktabs) || exists a: AddrSpace :: a in tabs' && x in Pages(tabs'[a])
  {
    hide Pages;
    var tabs' := tabs - {id};
    forall x | x in mem' ensures x in Pages(ktabs) || exists a :: a in tabs' && x in Pages(tabs'[a]) {
      if x !in Pages(ktabs) {
        var a: AddrSpace :| a in tabs && x in Pages(tabs[a]);
        assert a in tabs' && x in Pages(tabs'[a]);
      }
    }
  }

  /** Different tables lie on different pages. */
  lemma {:induction false} PagesCount(t: Tabs)
    requires Injective(t)
    ensures |Pages(t)| == |t|
  {
    if t == map[] {
      assert Pages(t) == {};
    } else {
      var k :| k in t;
      var t' := t - {k};
      PagesCount(t');
      assert t == t'[k := t[k]];
      ValuesAdd(t', k, t[k]);
      assert t[k] !in Pages(t');
      assert |t'| == |t| - 1;
    }
  }

  lemma FreedCount(m: GoodMmu, mem: Mem, pool: Mem, kpt: nat, ktabs: Tabs, tabs: map<AddrSpace, Tabs>, id: AddrSpace,
    pool': Mem)
    requires Forest(m, mem, pool, kpt, ktabs, tabs) && id in tabs
    requires pool'.Keys == pool.Keys + Pages(tabs[id])
    ensures |pool'| == |pool| + |tabs[id]|
    ensures (mem - Pages(tabs[id])).Keys + pool'.Keys == mem.Keys + pool.Keys
  {
    hide Pages, Forest;
    FreedPages(m, mem, pool, kpt, ktabs, tabs, id);
    FreedKeys(mem, pool, Pages(tabs[id]), pool');
    assert |pool'.Keys| == |pool'|;
  }

  lemma FreedKeys(mem: Mem, pool: Mem, pages: set<nat>, pool': Mem)
    requires pool'.Keys == pool.Keys + pages && pages <= mem.Keys && pool.Keys !! pages
    ensures |pool'.Keys| == |pool| + |pages|
    ensures (mem - pages).Keys + pool'.Keys == mem.Keys + pool.Keys
  {
    hide *;
    DisjointCount(pool.Keys, pages);
    assert (mem - pages).Keys == mem.Keys - pages;
    Regroup(mem.Keys, pool.Keys, pages);
    assert |pool| == |pool.Keys|;
  }

  lemma DisjointCount(x: set<nat>, y: set<nat>)
    requires x !! y
    ensures |x + y| == |x| + |y|
  {
  }

  lemma Regroup(x: set<nat>, y: set<nat>, z: set<nat>)
    requires z <= x
    ensures (x - z) + (y + z) == x + y
  {
  }

  lemma FreedPages(m: GoodMmu, mem: Mem, pool: Mem, kpt: nat, ktabs: Tabs, tabs: map<AddrSpace, Tabs>, id: AddrSpace)
    requires Forest(m, mem, pool, kpt, ktabs, tabs) && id in tabs
    ensures Pages(tabs[id]) <= mem.Keys && pool.Keys !! Pages(tabs[id]) && |Pages(tabs[id])| == |tabs[id]|
  {
    hide Pages, KernelTree, TableOk, Keys;
    assert UserTree(m, mem, kpt, tabs[id]);
    PagesCount(tabs[id]);
  }

  lemma DoomedKeys(m: GoodMmu, m0: Mem, kent: map<nat, nat>, t: Tabs)
    requires Doomed(m, m0, kent, t)
    ensures Injective(t) && Keys(GeoOf(m), t)
  {
  }

  lemma DoomedTable(m: GoodMmu, m0: Mem, kent: map<nat, nat>, t: Tabs, k: Path)
    requires Doomed(m, m0, kent, t) && k in t
    ensures t[k] > 0 && t[k] % PGSIZE == 0 && t[k] in m0 && |m0[t[k]]| == GeoOf(m).n
  {
    ShapeAt(GeoOf(m), m0, kent, t, UFLAGS, k);
  }

  lemma IntactAt(mem: Mem, m0: Mem, t: Tabs, k: Path)
    requires Intact(mem, m0, t, k) && k in t
    ensures t[k] in mem && t[k] in m0 && mem[t[k]] == m0[t[k]]
  {
    assert Below(k, k);
  }

  lemma FirstNone(t: Tabs, k: Path)
    ensures FreeOrderFirst(t, k, 0, []) && SubFirst(t, k, 0) == {}
  {
  }

  lemma GoodLevel(m: GoodMmu, level: nat)
    requires 1 <= level <= m.ptlevels
    ensures level < |m.pgtables| && Pow2(m.pgtables[level].bits) == GeoOf(m).n
  {
    assert LevelOk(m, level);
  }

  lemma ForestDoomed(m: GoodMmu, mem: Mem, pool: Mem, kpt: nat, ktabs: Tabs, tabs: map<AddrSpace, Tabs>, a: AddrSpace)
    requires Forest(m, mem, pool, kpt, ktabs, tabs) && a in tabs
    ensures Doomed(m, mem, KentOf(m, mem, kpt), tabs[a]) && PoolOk(GeoOf(m), mem, pool)
    ensures Intact(mem, mem, tabs[a], [])
    ensures [] in tabs[a] && tabs[a][[]] % PGSIZE == 0
  {
    hide Shape;
    var g, kent := GeoOf(m), KentOf(m, mem, kpt);
    assert UserTree(m, mem, kpt, tabs[a]);
    ShapeAt(g, mem, kent, tabs[a], UFLAGS, []);
    forall q | q in tabs[a] ensures tabs[a][q] in mem {
      ShapeAt(g, mem, kent, tabs[a], UFLAGS, q);
    }
  }

  // ---- vme_init ----

  const KFLAGS := PTE_W

  /** va lies in one of the first i areas, a kernel one. */
  ghost predicate PageBefore(m: GoodMmu, i: nat, va: nat)
    requires i <= |m.areas|
  {
    exists a :: 0 <= a < i && m.areas[a].kernel && m.areas[a].start <= va < EndOf(m, m.areas[a])
  }

  ghost predicate PagePart(m: GoodMmu, i: nat, pos: nat, va: nat) {
    i < |m.areas| && m.areas[i].start <= va < pos
  }

  /** vme_init has mapped the kernel areas below i, and area i up to pos. */
  ghost predicate Built(m: GoodMmu, mem: Mem, t: Tabs, i: nat, pos: nat)
    requires i <= |m.areas|
  {
    && Shape(GeoOf(m), mem, map[], t, KFLAGS)
    && mem.Keys == Pages(t)
    && LeavesBuilt(m, mem, t, i, pos)
  }

  ghost predicate LeavesBuilt(m: GoodMmu, mem: Mem, t: Tabs, i: nat, pos: nat)
    requires i <= |m.areas|
  {
    forall va: nat :: va < Limit(m) && va % PGSIZE == 0 ==>
      LeafOf(m, mem, t, va) == if PageBefore(m, i, va) || PagePart(m, i, pos, va) then va + PTE_P + PTE_W else 0
  }

  ghost function LeafOf(m: GoodMmu, mem: Mem, t: Tabs, va: nat): nat
  {
    PathIsFull(m, va);
    LeafAt(GeoOf(m), mem, t, PathOf(m, va))
  }

  lemma BuiltNothing(m: GoodMmu)
    ensures Built(m, map[], map[], 0, 0)
  {
    var t: Tabs := map[];
    assert Pages(t) == {};
  }

  lemma BuildStarts(m: GoodMmu, mem: Mem, t: Tabs, i: nat)
    requires i < |m.areas| && Built(m, mem, t, i, 0)
    ensures Built(m, mem, t, i, m.areas[i].start)
  {
    hide Shape, PageBefore, LeafOf, Limit;
  }

  lemma BuildEnds(m: GoodMmu, mem: Mem, t: Tabs, i: nat, end: nat)
    requires i < |m.areas| && end == EndOf(m, m.areas[i])
    requires if m.areas[i].kernel then Built(m, mem, t, i, end) else Built(m, mem, t, i, 0)
    ensures Built(m, mem, t, i + 1, 0)
  {
    hide Shape, LeafOf, Limit;
    forall va: nat
      ensures PageBefore(m, i + 1, va) <==> PageBefore(m, i, va) || (m.areas[i].kernel && PagePart(m, i, end, va))
    {
    }
  }

  /** One more identity-mapped page. */
  lemma BuildNext(m: GoodMmu, mem: Mem, pool: Mem, t: Tabs, i: nat, pos: nat, mem1: Mem, pool1: Mem, t1: Tabs,
    page: nat, mem2: Mem)
    requires i < |m.areas| && Built(m, mem, t, i, pos) && pos % PGSIZE == 0
    requires m.areas[i].start <= pos < EndOf(m, m.areas[i])
    requires Shape(GeoOf(m), mem1, map[], t1, KFLAGS)
    requires Grew(GeoOf(m), mem, t, pool, mem1, t1, pool1, PathOf(m, pos))
    requires var p := PathOf(m, pos);
      p[..m.ptlevels - 1] in t1 && page == t1[p[..m.ptlevels - 1]] && page in mem1 && |mem1[page]| == GeoOf(m).n &&
      p[m.ptlevels - 1] < GeoOf(m).n &&
        mem2 == mem1[page := SetEntry(mem1[page], p[m.ptlevels - 1], pos + PTE_P + PTE_W)]
    ensures Built(m, mem2, t1, i, pos + PGSIZE)
  {
    hide Shape, PageBefore, Limit, Pages, EndOf, SetEntry, PathOf, LeafAt;
    PathIsFull(m, pos);
    AreaBelowLimit(m, i, pos);
    KernelLeaf(pos);
    BuildKeys(GeoOf(m), mem, t, pool, mem1, t1, pool1, PathOf(m, pos), mem2);
    SetLeaf(GeoOf(m), mem1, map[], t1, KFLAGS, PathOf(m, pos), pos + PTE_P + PTE_W, mem2);
    forall va: nat | va < Limit(m) && va % PGSIZE == 0
      ensures LeafOf(m, mem2, t1, va) ==
        if PageBefore(m, i, va) || PagePart(m, i, pos + PGSIZE, va) then va + PTE_P + PTE_W else 0
    {
      PathIsFull(m, va);
      if PathOf(m, va) == PathOf(m, pos) {
        PathInjective(m, va, pos);
      }
      PagePartNext(m, i, pos, va);
    }
  }

  lemma PagePartNext(m: GoodMmu, i: nat, pos: nat, va: nat)
    requires i < |m.areas| && pos % PGSIZE == 0 && va % PGSIZE == 0 && m.areas[i].start <= pos
    ensures PagePart(m, i, pos + PGSIZE, va) <==> PagePart(m, i, pos, va) || va == pos
  {
    if va > pos {
      NextMultiple(pos, va, PGSIZE);
    }
  }

  lemma BuildKeys(g: Geo, mem: Mem, t: Tabs, pool: Mem, mem1: Mem, t1: Tabs, pool1: Mem, p: Path, mem2: Mem)
    requires g.levels > 0 && Grew(g, mem, t, pool, mem1, t1, pool1, p) && mem.Keys == Pages(t)
    requires mem2.Keys == mem1.Keys
    ensures mem2.Keys == Pages(t1)
  {
    hide Pages;
    assert Pages(t) <= Pages(t1) by { PagesSub(t, t1); }
  }

  lemma AreaBelowLimit(m: GoodMmu, i: nat, pos: nat)
    requires i < |m.areas| && m.areas[i].start <= pos < EndOf(m, m.areas[i])
    ensures pos < Limit(m)
  {
    assert AreaOk(m, m.areas[i]);
  }

  lemma KernelLeaf(va: nat)
    requires va % PGSIZE == 0
    ensures var e := va + PTE_P + PTE_W; Present(e) && e % PGSIZE < 8
    ensures Mapping(KFLAGS, va + PTE_P + PTE_W) == Some(Xlat(va, true, false))
  {
  }

  /** The tree that vme_init builds is a kernel tree. */
  lemma BuildDone(m: GoodMmu, mem: Mem, t: Tabs, root: nat)
    requires Built(m, mem, t, |m.areas|, 0) && [] in t && t[[]] == root
    ensures KernelTree(m, mem, root, t)
  {
    hide Shape, Closed, View, Walk, EntryOk, User, Present;
    var g := GeoOf(m);
    ShapeIsClosed(g, mem, t, KFLAGS);
    ShapeAt(g, mem, map[], t, KFLAGS, []);
    forall j: nat | KernelIndex(m, j) ensures !User(KEntry(mem, root, j)) {
      RootNotUser(g, mem, t, j);
    }
    forall va: nat | InKernel(m, va) && va % PGSIZE == 0 ensures View(m, mem, root, va) == Some(Xlat(va, true, false)) {
      BuiltPage(m, mem, t, va);
    }
  }

  lemma RootNotUser(g: Geo, mem: Mem, t: Tabs, j: nat)
    requires Shape(g, mem, map[], t, KFLAGS) && [] in t && g.levels >= 2
    ensures !User(KEntry(mem, t[[]], j))
  {
    hide Shape;
    ShapeAt(g, mem, map[], t, KFLAGS, []);
    if j < g.n {
      assert EntryOk(g, map[], t, KFLAGS, [], j, mem[t[[]]][j]);
      if [] + [j] in t {
        ShapeAt(g, mem, map[], t, KFLAGS, [] + [j]);
        InnerEntry(t[[] + [j]], KFLAGS);
      }
    }
  }

  lemma BuiltPage(m: GoodMmu, mem: Mem, t: Tabs, va: nat)
    requires Built(m, mem, t, |m.areas|, 0) && [] in t
    requires InKernel(m, va) && va % PGSIZE == 0
    ensures View(m, mem, t[[]], va) == Some(Xlat(va, true, false))
  {
    hide Shape, Walk, Limit, LeafAt, Mapping, EndOf;
    var g, p := GeoOf(m), PathOf(m, va);
    var a :| 0 <= a < |m.areas| && m.areas[a].kernel && m.areas[a].start <= va < EndOf(m, m.areas[a]);
    AreaBelowLimit(m, a, va);
    PathIsFull(m, va);
    assert PageBefore(m, |m.areas|, va);
    assert p[..0] == [] && p[0..] == p;
    WalkTree(g, mem, map[], t, KFLAGS, p, 0);
    KernelLeaf(va);
  }

  lemma BuiltShape(m: GoodMmu, mem: Mem, t: Tabs, i: nat, pos: nat)
    requires i < |m.areas| && Built(m, mem, t, i, pos)
    ensures Shape(GeoOf(m), mem, map[], t, KFLAGS) && Pages(t) == mem.Keys
    ensures [] in t || t == map[]
  {
    hide Shape, LeavesBuilt, Pages;
    ShapeKeys(GeoOf(m), mem, map[], t, KFLAGS);
    if t != map[] {
      var k :| k in t;
      HasRoot(GeoOf(m), t, k);
    }
  }

  lemma PoolKeys(g: Geo, mem: Mem, mem': Mem, pool: Mem)
    requires PoolOk(g, mem, pool) && mem'.Keys == mem.Keys
    ensures PoolOk(g, mem', pool)
  {
    assert forall a :: a in mem' ==> a in mem'.Keys;
  }

  /** With its kernel tree built, the system has no address space yet. */
  lemma BuiltForest(m: GoodMmu, mem: Mem, pool: Mem, t: Tabs, root: nat)
    requires Built(m, mem, t, |m.areas|, 0) && PoolOk(GeoOf(m), mem, pool)
    requires [] in t ==> root == t[[]]
    ensures Forest(m, mem, pool, root, t, map[])
  {
    hide Shape, KernelTree, PoolOk, LeavesBuilt;
    BuiltRoot(m, mem, t);
    BuildDone(m, mem, t, root);
  }

  lemma BuiltRoot(m: GoodMmu, mem: Mem, t: Tabs)
    requires Built(m, mem, t, |m.areas|, 0)
    ensures [] in t
  {
    hide Shape;
    var va := m.areas[1].start;
    GoodArea(m, 1);
    AreaBelowLimit(m, 1, va);
    assert PageBefore(m, |m.areas|, va);
    AlignedStart(m, 1);
    PathIsFull(m, va);
    var k := PathOf(m, va)[..m.ptlevels - 1];
    assert k in t;
    ShapeKeys(GeoOf(m), mem, map[], t, KFLAGS);
    HasRoot(GeoOf(m), t, k);
  }
}
