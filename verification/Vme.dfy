/** Address spaces over multi-level page tables: ptwalk, map, protect,
    unprotect and vme_init on one memory of table pages. */
module Vme {
  import opened Bits
  import opened PageTree
  import opened MmuConfig
  import opened PtWalkFacts
  import opened AddressSpaceFacts
  import opened Boot64
  import opened KernelCount

  const MMAP_NONE := 0
  const MMAP_WRITE := 2

  class Vme {
    const m: GoodMmu
    var kpt: nat
    /** The table pages in use, by physical address. */
    var mem: Mem
    /** The pages the client's allocator has left, with whatever they hold. */
    var pool: Mem
    ghost var ktabs: Tabs
    ghost var tabs: map<AddrSpace, Tabs>

    /** Before vme_init: on x86_64 the boot code's tables, else none. */
    constructor (x86_64: bool, free: Mem)
      requires PoolOk(GeoOf(if x86_64 then GOOD64 else GOOD32), if x86_64 then BootTables() else map[], free)
      ensures m == (if x86_64 then GOOD64 else GOOD32) && pool == free
      ensures Booted()
    {
      m := if x86_64 then GOOD64 else GOOD32;
      mem := if x86_64 then BootImage() else map[];
      pool := free;
      kpt := 0;
      ktabs := map[];
      tabs := map[];
    }

    ghost predicate Booted()
      reads this
    {
      && ktabs == map[] && tabs == map[]
      && mem == (if m == MMU64 then BootTables() else map[])
      && PoolOk(GeoOf(m), mem, pool)
    }

    // ---- invariants ----

    /** `space.ptr` leads to its root, with the flags protect gave it, and the
        other fields describe what the client may map. */
    ghost predicate PtrOk(space: AddrSpace)
      requires space in tabs
      reads this, space
    {
      && [] in tabs[space] && space.ptr == tabs[space][[]] + PTE_P + PTE_U
      && space.pgsize == PGSIZE && CoversUser(m, space.area)
    }

    ghost predicate Valid()
      reads this, tabs.Keys
    {
      && Forest(m, mem, pool, kpt, ktabs, tabs)
      && (forall a :: a in tabs ==> PtrOk(a))
    }

    /** What the processor makes of an address when CR3 holds space.ptr. */
    ghost function Translate(space: AddrSpace, va: nat): Option<Xlat>
      reads this, space
    {
      View(m, mem, BaseOf(space.ptr), va)
    }

    // ---- ptwalk ----

    method Pgallocz() returns (base: Option<nat>)
      requires PoolOk(GeoOf(m), mem, pool)
      modifies this`mem, this`pool
      ensures base.None? <==> old(pool) == map[]
      ensures base.None? ==> mem == old(mem) && pool == old(pool)
      ensures base.Some? ==> base.value in old(pool) && pool == old(pool) - {base.value}
      ensures base.Some? ==> |pool| == |old(pool)| - 1
      ensures base.Some? ==> mem == old(mem)[base.value := Zeros(GeoOf(m).n)]
      ensures mem.Keys + pool.Keys == old(mem.Keys + pool.Keys)
    {
      if pool == map[] {
        return None;
      }
      var page :| page in pool;
      var pt := pool[page];
      pool := pool - {page};
      assert old(pool) == pool[page := pt];
      var n := Pow2(m.pgtables[1].bits);
      var i := 0;
      while i < n
        invariant 0 <= i <= n && |pt| == n
        invariant forall k :: 0 <= k < i ==> pt[k] == 0
      {
        pt := SetEntry(pt, i, 0);
        i := i + 1;
      }
      assert pt == Zeros(n);
      mem := mem[page := pt];
      TakeKeys(old(mem), old(pool), page, pt);
      return Some(page);
    }

    /** The step of ptwalk that fills a missing entry with a new table: the word
        at &space.ptr (i == 0) or entry `index` of the table at cur. */
    method LinkTable(space: AddrSpace, cur: nat, i: nat, index: nat, fl: nat, ghost kent: map<nat, nat>,
                     ghost p: Path, ghost s0: Cursor, ghost s: Cursor)
      returns (page: Option<nat>, ghost s': Cursor)
      requires FullPath(GeoOf(m), p) && i < m.ptlevels && Flags(fl) && p[0] !in kent
      requires s == Cursor(mem, s.t, pool, space.ptr)
      requires PoolOk(GeoOf(m), s0.mem, s0.pool) && PoolOk(GeoOf(m), mem, pool)
      requires Walking(GeoOf(m), kent, fl, p, s0, s, i, cur)
      requires p[..i] !in s.t && p[..i] !in s0.t
      requires i > 0 ==> cur in mem && |mem[cur]| == GeoOf(m).n && index == p[i - 1]
      modifies this`mem, this`pool, space`ptr
      ensures s' == Cursor(mem, s'.t, pool, space.ptr)
      ensures page.None? ==> s' == s && pool == map[]
      ensures page.None? <==> old(pool) == map[]
      ensures page.Some? ==> Walking(GeoOf(m), kent, fl, p, s0, s', i + 1, page.value)
    {
      hide Walking, PoolOk;
      page := Pgallocz();
      if page.None? {
        return page, s;
      }
      PoolPage(GeoOf(m), s.mem, s.pool, page.value);
      var next := page.value + PTE_P + fl;
      if i == 0 {
        space.ptr := next;
      } else {
        mem := mem[cur := SetEntry(mem[cur], index, next)];
      }
      s' := Cursor(mem, s.t[p[..i] := page.value], pool, space.ptr);
      WalkLinks(GeoOf(m), kent, fl, p, s0, s, i, cur, page.value, s');
    }

    /** Walks to the last-level entry of an address, linking zeroed tables where
        they are missing; None when the allocator runs out (a panic). */
    method PtWalk(space: AddrSpace, addr: nat, fl: nat, ghost kent: map<nat, nat>, ghost t: Tabs)
      returns (loc: Option<(nat, nat)>, ghost t': Tabs)
      requires PoolOk(GeoOf(m), mem, pool)
      requires Flags(fl) && Shape(GeoOf(m), mem, kent, t, fl) && RootOk(space.ptr, t)
      requires [] in t || (t == map[] && kent == map[])
      requires PathOf(m, addr)[0] !in kent
      modifies this`mem, this`pool, space`ptr
      ensures PoolOk(GeoOf(m), mem, pool)
      ensures RootOk(space.ptr, t') && ([] in t ==> space.ptr == old(space.ptr))
      ensures Shape(GeoOf(m), mem, kent, t', fl)
      ensures Grew(GeoOf(m), old(mem), t, old(pool), mem, t', pool, PathOf(m, addr))
      ensures loc.None? <==> |old(pool)| < TablesMissing(m, t, addr)
      ensures loc.None? ==> pool == map[]
      ensures loc.Some? ==> |t'| == |t| + TablesMissing(m, t, addr)
      ensures loc.Some? ==> |pool| == |old(pool)| - TablesMissing(m, t, addr)
      ensures loc.Some? ==> t'.Keys == t.Keys + WayTo(m, addr)
      ensures loc.Some? ==> LeafSlot(m, mem, t', addr, loc.value.0, loc.value.1)
      ensures loc.Some? ==> TablesMissing(m, t', addr) == 0
      ensures TablesMissing(m, t, addr) == 0 ==> t' == t && mem == old(mem) && pool == old(pool)
    {
      hide Walking, Shape, Grew, PoolOk, Present, BaseOf;
      ghost var p := PathOf(m, addr);
      PathIsFull(m, addr);
      ghost var s0 := Cursor(mem, t, pool, space.ptr);
      ghost var s := s0;
      WalkStarts(GeoOf(m), kent, fl, p, s0, 0);
      var cur := 0;
      var i := 0;
      while i < m.ptlevels
        invariant 0 <= i <= m.ptlevels
        invariant s == Cursor(mem, s.t, pool, space.ptr)
        invariant Walking(GeoOf(m), kent, fl, p, s0, s, i, cur)
      {
        WalkReads(GeoOf(m), kent, fl, p, s0, s, i, cur);
        var index := IndexOf(addr, m.pgtables[i]);
        var entry := if i == 0 then space.ptr else mem[cur][index];
        if !Present(entry) {
          var page;
          page, s := LinkTable(space, cur, i, index, fl, kent, p, s0, s);
          if page.None? {
            WalkFails(GeoOf(m), kent, fl, p, s0, s, i, cur);
            return None, s.t;
          }
          cur := page.value;
        } else {
          WalkGoesOn(GeoOf(m), kent, fl, p, s0, s, i, cur);
          cur := BaseOf(entry);
        }
        i := i + 1;
      }
      var index := IndexOf(addr, m.pgtables[m.ptlevels]);
      WalkEnds(GeoOf(m), kent, fl, p, s0, s, cur);
      return Some((cur, index)), s.t;
    }

    /** Spaces with the same root and the same view translate as before. */
    twostate lemma Translates(spaces: set<AddrSpace>)
      requires forall a :: a in spaces ==> a.ptr == old(a.ptr) && SameView(m, old(mem), mem, BaseOf(a.ptr))
      ensures forall a, v: nat :: a in spaces && v < Limit(m) ==> Translate(a, v) == old(Translate(a, v))
    {
      hide SameView, View, Limit, BaseOf;
      forall a, v: nat | a in spaces && v < Limit(m) ensures Translate(a, v) == old(Translate(a, v)) {
        ViewAt(m, old(mem), mem, BaseOf(a.ptr), v);
      }
    }

    // ---- map ----

    /** The translation of va that map(.., pa, prot) sets up. */
    ghost function Mapped(pa: nat, prot: nat): Option<Xlat> {
      if prot == MMAP_NONE then None else Some(Xlat(pa, prot / 2 % 2 == 1, true))
    }

    lemma Unfold()
      requires Valid()
      ensures Forest(m, mem, pool, kpt, ktabs, tabs)
      ensures forall a :: a in tabs ==> PtrOk(a)
      ensures forall a :: a in tabs ==> [] in tabs[a] && BaseOf(a.ptr) == tabs[a][[]] && RootOk(a.ptr, tabs[a])
    {
      forall a | a in tabs ensures [] in tabs[a] && BaseOf(a.ptr) == tabs[a][[]] && RootOk(a.ptr, tabs[a]) {
        assert UserTree(m, mem, kpt, tabs[a]) && PtrOk(a);
        ShapeAt(GeoOf(m), mem, KentOf(m, mem, kpt), tabs[a], UFLAGS, []);
        UserRoot(tabs[a][[]]);
      }
    }

    lemma Fold()
      requires Forest(m, mem, pool, kpt, ktabs, tabs)
      requires forall a :: a in tabs ==> PtrOk(a)
      ensures Valid()
    {
    }

    /** ptwalk for a user page of a protected address space. */
    method WalkUser(space: AddrSpace, va: nat) returns (loc: Option<(nat, nat)>)
      requires Valid() && space in tabs && InUser(m, va)
      modifies this`mem, this`pool, this`tabs, space`ptr
      ensures Valid() && space in tabs && tabs == old(tabs)[space := tabs[space]] && space.ptr == old(space.ptr)
      ensures forall a :: a in tabs ==> SameView(m, old(mem), mem, BaseOf(a.ptr))
      ensures mem.Keys + pool.Keys == old(mem.Keys + pool.Keys)
      ensures loc.Some? <==> old(TablesMissing(m, tabs[space], va)) <= old(|pool|)
      ensures loc.Some? ==> LeafSlot(m, mem, tabs[space], va, loc.value.0, loc.value.1)
      ensures loc.Some? ==> tabs[space].Keys == old(tabs[space].Keys) + WayTo(m, va)
      ensures loc.Some? ==> |pool| == old(|pool|) - old(TablesMissing(m, tabs[space], va))
      ensures loc.Some? ==> TablesMissing(m, tabs[space], va) == 0
      ensures old(TablesMissing(m, tabs[space], va)) == 0 ==> tabs == old(tabs) && mem == old(mem) && pool == old(pool)
    {
      hide Missing, Present, BaseOf, FullPath, Valid, Forest, Shape, Grew, PoolOk, View, PathOf, Limit, InUser,
        KentOf, KernelTree, SameView, Pages, WayTo, UserTree, LeafSlot, TablesMissing;
      Unfold();
      UserAddress(m, va);
      ghost var mem0, pool0 := mem, pool;
      ForestAt(m, mem, pool, kpt, ktabs, tabs, space);
      ghost var t1;
      loc, t1 := PtWalk(space, va, UFLAGS, KentOf(m, mem, kpt), tabs[space]);
      Adopt(space, va, mem0, pool0, t1);
    }

    /** The tables that a walk to va added belong to the space. */
    ghost method Adopt(space: AddrSpace, va: nat, mem0: Mem, pool0: Mem, t1: Tabs)
      requires Forest(m, mem0, pool0, kpt, ktabs, tabs) && space in tabs && InUser(m, va)
      requires forall a :: a in tabs ==> PtrOk(a) && BaseOf(a.ptr) == tabs[a][[]]
      requires Grew(GeoOf(m), mem0, tabs[space], pool0, mem, t1, pool, PathOf(m, va)) && PoolOk(GeoOf(m), mem, pool)
      requires Shape(GeoOf(m), mem, KentOf(m, mem0, kpt), t1, UFLAGS)
      modifies this`tabs
      ensures Valid() && tabs == old(tabs)[space := t1]
      ensures forall a :: a in tabs ==> SameView(m, mem0, mem, BaseOf(a.ptr))
      ensures mem.Keys + pool.Keys == mem0.Keys + pool0.Keys
    {
      hide BaseOf, Valid, Forest, Shape, Grew, PoolOk, View, PathOf, Limit, InUser, KentOf, KernelTree, SameView,
        Pages, UserTree;
      ForestAt(m, mem0, pool0, kpt, ktabs, tabs, space);
      AfterWalk(m, mem0, pool0, kpt, ktabs, tabs, space, mem, pool, t1, PathOf(m, va));
      GrewKeys(GeoOf(m), mem0, tabs[space], pool0, mem, t1, pool, PathOf(m, va));
      tabs := tabs[space := t1];
      Fold();
    }

    /** *ptentry = e, for the entry of a user page. */
    method WriteUser(space: AddrSpace, va: nat, page: nat, index: nat, e: nat)
      requires Valid() && space in tabs && InUser(m, va) && va % PGSIZE == 0
      requires LeafSlot(m, mem, tabs[space], va, page, index)
      requires e == 0 || (Present(e) && e % PGSIZE < 8)
      modifies this`mem
      ensures Valid() && mem.Keys == old(mem.Keys)
      ensures forall a, v: nat :: a in tabs && v < Limit(m) && v % PGSIZE == 0 ==>
        Translate(a, v) == if a == space && v == va then Mapping(UFLAGS, e) else old(Translate(a, v))
    {
      hide Valid, Forest, SameView, View, Mapping, Limit, InUser;
      Unfold();
      UserAddress(m, va);
      ghost var mem0 := mem;
      mem := mem[page := SetEntry(mem[page], index, e)];
      AfterWrite(m, mem0, pool, kpt, ktabs, tabs, space, va, e, page, mem);
      Fold();
      forall a, v: nat | a in tabs && v < Limit(m) && v % PGSIZE == 0 && a != space
        ensures Translate(a, v) == old(Translate(a, v))
      {
        ViewAt(m, mem0, mem, BaseOf(a.ptr), v);
      }
    }

    method Map(space: AddrSpace, va: nat, pa: nat, prot: nat) returns (ok: bool)
      requires Valid() && space in tabs
      modifies this`mem, this`pool, this`tabs, space`ptr
      ensures Valid() && space in tabs && tabs == old(tabs)[space := tabs[space]] && space.ptr == old(space.ptr)
      ensures ok <==>
        InUser(m, va) && va % PGSIZE == 0 && pa % PGSIZE == 0 && old(TablesMissing(m, tabs[space], va) <= |pool|) &&
        (old(Translate(space, va)).Some? <==> prot == MMAP_NONE)
      ensures forall a, v: nat :: a in tabs && v < Limit(m) && v % PGSIZE == 0 ==>
        Translate(a, v) == if ok && a == space && v == va then Mapped(pa, prot) else old(Translate(a, v))
      ensures mem.Keys + pool.Keys == old(mem.Keys + pool.Keys)
      ensures ok ==> tabs[space].Keys == old(tabs[space].Keys) + WayTo(m, va)
      ensures ok ==> |pool| == old(|pool|) - old(TablesMissing(m, tabs[space], va))
    {
      hide Valid, LeafSlot, SameView, View, Mapping, Limit, InUser, Present, UserTree, Forest, Missing, BitAnd,
        TablesMissing, PtrOk,
        WayTo, BaseOf, Mapped, Translate;
      if !InUser(m, va) {
        return false;
      }
      if va % PGSIZE != 0 || pa % PGSIZE != 0 {
        return false;
      }
      ok := MapUser(space, va, pa, prot);
    }

    /** map, once its arguments are known to be in range. */
    method MapUser(space: AddrSpace, va: nat, pa: nat, prot: nat) returns (ok: bool)
      requires Valid() && space in tabs && InUser(m, va) && va % PGSIZE == 0 && pa % PGSIZE == 0
      modifies this`mem, this`pool, this`tabs, space`ptr
      ensures Valid() && space in tabs && tabs == old(tabs)[space := tabs[space]] && space.ptr == old(space.ptr)
      ensures ok <==>
        old(TablesMissing(m, tabs[space], va) <= |pool|) && (old(Translate(space, va)).Some? <==> prot == MMAP_NONE)
      ensures forall a, v: nat :: a in tabs && v < Limit(m) && v % PGSIZE == 0 ==>
        Translate(a, v) == if ok && a == space && v == va then Mapped(pa, prot) else old(Translate(a, v))
      ensures mem.Keys + pool.Keys == old(mem.Keys + pool.Keys)
      ensures ok ==> tabs[space].Keys == old(tabs[space].Keys) + WayTo(m, va)
      ensures ok ==> |pool| == old(|pool|) - old(TablesMissing(m, tabs[space], va))
    {
      hide Valid, LeafSlot, SameView, View, Mapping, Limit, InUser, Present, UserTree, Forest, Missing, BitAnd,
        TablesMissing, PtrOk,
        WayTo, BaseOf, Mapped, Translate;
      UserAddress(m, va);
      var loc := WalkUser(space, va);
      Translates(tabs.Keys);
      if loc.None? {
        return false;
      }
      ok := MapAt(space, va, pa, prot, loc.value.0, loc.value.1);
    }

    /** The rest of map, once ptwalk has found the entry. */
    method MapAt(space: AddrSpace, va: nat, pa: nat, prot: nat, page: nat, index: nat) returns (ok: bool)
      requires Valid() && space in tabs && InUser(m, va) && va % PGSIZE == 0 && pa % PGSIZE == 0
      requires LeafSlot(m, mem, tabs[space], va, page, index) && TablesMissing(m, tabs[space], va) == 0
      modifies this`mem, this`pool, this`tabs, space`ptr
      ensures Valid() && tabs == old(tabs) && pool == old(pool) && mem.Keys == old(mem.Keys) &&
        space.ptr == old(space.ptr)
      ensures ok <==> (old(Translate(space, va)).Some? <==> prot == MMAP_NONE)
      ensures forall a, v: nat :: a in tabs && v < Limit(m) && v % PGSIZE == 0 ==>
        Translate(a, v) == if ok && a == space && v == va then Mapped(pa, prot) else old(Translate(a, v))
    {
      hide Valid, LeafSlot, SameView, View, Mapping, Limit, InUser, Present, UserTree, Forest, Missing, BitAnd,
        TablesMissing, PtrOk;
      Unfold();
      SlotMaps(space, va, page, index);
      var ptentry := mem[page][index];
      var pte := 0;
      MappingZero();
      if prot == MMAP_NONE {
        if !Present(ptentry) {
          return false;
        }
      } else {
        if Present(ptentry) {
          return false;
        }
        var w := BitAnd(prot, MMAP_WRITE) != 0;
        WriteBit(prot);
        UserLeaf(pa, w);
        pte := pa + PTE_P + PTE_U + if w then PTE_W else 0;
      }
      WriteUser(space, va, page, index, pte);
      ghost var mem2 := mem;
      var again := WalkUser(space, va);
      assert mem == mem2;
      return true;
    }

    /** The entry a walk found is present exactly when its page is mapped. */
    lemma SlotMaps(space: AddrSpace, va: nat, page: nat, index: nat)
      requires Valid() && space in tabs && InUser(m, va) && LeafSlot(m, mem, tabs[space], va, page, index)
      ensures page in mem && index < |mem[page]|
      ensures Present(mem[page][index]) <==> Translate(space, va).Some?
    {
      hide Valid, Forest, Limit, InUser, InKernel, KernelTree, Shape, EntryOk;
      Unfold();
      UserAddress(m, va);
      ForestAt(m, mem, pool, kpt, ktabs, tabs, space);
      ViewSplit(m, mem, kpt, ktabs, tabs[space], va);
      SlotLeaf(m, mem, kpt, tabs[space], PathOf(m, va), mem[page][index]);
    }

    // ---- protect ----

    method Protect(space: AddrSpace) returns (ok: bool)
      requires Valid() && space !in tabs
      modifies this`mem, this`pool, this`tabs, space
      ensures Valid()
      ensures ok <==> old(pool) != map[]
      ensures !ok ==> mem == old(mem) && pool == old(pool) && tabs == old(tabs)
      ensures ok ==> space in tabs && tabs == old(tabs)[space := tabs[space]] && tabs[space].Keys == {[]}
      ensures ok ==> |pool| == old(|pool|) - 1
      ensures ok ==> space.pgsize == PGSIZE && CoversUser(m, space.area)
      ensures forall a, v: nat :: a in old(tabs) && v < Limit(m) ==> Translate(a, v) == old(Translate(a, v))
      ensures ok ==> forall v: nat :: v < Limit(m) && v % PGSIZE == 0 ==>
        Translate(space, v) == if InKernel(m, v) then Some(Xlat(v, true, false)) else None
      ensures mem.Keys + pool.Keys == old(mem.Keys + pool.Keys)
    {
      hide Valid, Forest, View, SameView, SameViews, Translate, Limit, InKernel, OneTable, Pages, UserTree, BaseOf,
        CoversUser;
      ghost var mem0, pool0 := mem, pool;
      UnfoldValid();
      var base := NewRoot(space);
      if base.None? {
        return false;
      }
      RootViews(mem0, pool0);
      Admit(space, base.value);
      Translates(old(tabs).Keys);
      return true;
    }

    lemma UnfoldValid()
      requires Valid()
      ensures Forest(m, mem, pool, kpt, ktabs, tabs) && forall a :: a in tabs ==> PtrOk(a)
    {
    }

    lemma RootViews(mem0: Mem, pool0: Mem)
      requires SameViews(m, mem0, mem, tabs) && forall a :: a in tabs ==> PtrOk(a)
      requires Forest(m, mem0, pool0, kpt, ktabs, tabs)
      ensures forall a :: a in tabs ==> SameView(m, mem0, mem, BaseOf(a.ptr))
    {
      hide SameView, BaseOf, Forest, Shape;
      forall a | a in tabs ensures SameView(m, mem0, mem, BaseOf(a.ptr)) {
        ForestDoomed(m, mem0, pool0, kpt, ktabs, tabs, a);
        UserRoot(tabs[a][[]]);
      }
    }

    /** The new root belongs to the space, which sees the kernel and nothing else. */
    method Admit(space: AddrSpace, upt: nat)
      requires Forest(m, mem, pool, kpt, ktabs, tabs[space := OneTable(upt)]) && space !in tabs
      requires forall a :: a in tabs ==> PtrOk(a)
      requires upt % PGSIZE == 0
      modifies this`tabs, space
      ensures Valid() && space in tabs && tabs == old(tabs)[space := tabs[space]] && tabs[space].Keys == {[]}
      ensures space.pgsize == PGSIZE && CoversUser(m, space.area)
      ensures forall v: nat :: v < Limit(m) && v % PGSIZE == 0 ==>
        Translate(space, v) == if InKernel(m, v) then Some(Xlat(v, true, false)) else None
    {
      hide Valid, Forest, View, Limit, InKernel, BaseOf, OneTable, Pages, UserTree, CoversUser;
      space.pgsize := PGSIZE;
      space.area := m.areas[0];
      space.ptr := upt + PTE_P + PTE_U;
      UserRoot(upt);
      UserAreaCovers(m);
      OneTableHas(upt);
      tabs := tabs[space := OneTable(upt)];
      Fold();
      forall v: nat | v < Limit(m) && v % PGSIZE == 0
        ensures Translate(space, v) == if InKernel(m, v) then Some(Xlat(v, true, false)) else None
      {
        FreshView(m, mem, pool, kpt, ktabs, tabs, space, upt, v);
      }
    }

    /** The new root of protect: a zeroed page with the kernel's entries. */
    method NewRoot(ghost space: AddrSpace) returns (base: Option<nat>)
      requires Forest(m, mem, pool, kpt, ktabs, tabs) && space !in tabs
      modifies this`mem, this`pool
      ensures base.None? <==> old(pool) == map[]
      ensures base.None? ==> mem == old(mem) && pool == old(pool)
      ensures base.Some? ==> |pool| == |old(pool)| - 1
      ensures base.Some? ==>
        base.value % PGSIZE == 0 && Forest(m, mem, pool, kpt, ktabs, tabs[space := OneTable(base.value)])
      ensures base.Some? ==> SameViews(m, old(mem), mem, tabs)
      ensures mem.Keys + pool.Keys == old(mem.Keys + pool.Keys)
    {
      hide Forest, SameViews, OneTable, Pages, Zeros, PoolOk;
      ghost var mem0, pool0 := mem, pool;
      ForestKernel(m, mem, pool, kpt, ktabs, tabs);
      base := Pgallocz();
      if base.Some? {
        PoolPage(GeoOf(m), mem0, pool0, base.value);
        FillRoot(base.value, space, mem0, pool0);
      }
    }

    method FillRoot(upt: nat, ghost space: AddrSpace, ghost mem0: Mem, ghost pool0: Mem)
      requires Forest(m, mem0, pool0, kpt, ktabs, tabs) && space !in tabs
      requires upt in pool0 && upt !in mem0 && pool == pool0 - {upt} && mem == mem0[upt := Zeros(GeoOf(m).n)]
      modifies this`mem
      ensures Forest(m, mem, pool, kpt, ktabs, tabs[space := OneTable(upt)]) && mem.Keys == old(mem.Keys)
      ensures SameViews(m, mem0, mem, tabs)
    {
      hide Forest, KernelTree, SameViews, FreshRoot, OneTable, Pages, Zeros, PoolOk;
      ForestKernel(m, mem0, pool0, kpt, ktabs, tabs);
      KernelRoot(m, mem0, kpt, ktabs);
      CopyKernelEntries(upt);
      AfterProtect(m, mem0, pool0, kpt, ktabs, tabs, space, upt, mem[upt], mem, pool);
    }

    /** protect's loops over the kernel areas, on the root at upt. */
    method CopyKernelEntries(upt: nat)
      requires kpt in mem && |mem[kpt]| == GeoOf(m).n
      requires upt in mem && upt != kpt && mem[upt] == Zeros(GeoOf(m).n)
      modifies this`mem
      ensures upt in mem && mem == old(mem)[upt := mem[upt]]
      ensures FreshRoot(m, mem, kpt, mem[upt])
    {
      hide Copied, AreaOk, FreshRoot, IndexOf;
      var info := m.pgtables[1];
      ghost var k := mem[kpt];
      CopyNothing(m, k, mem[upt]);
      var i := 0;
      while i < |m.areas|
        invariant 0 <= i <= |m.areas|
        invariant upt in mem && mem == old(mem)[upt := mem[upt]] && |mem[upt]| == GeoOf(m).n
        invariant Copied(m, k, mem[upt], i, 0)
      {
        var vma := m.areas[i];
        GoodArea(m, i);
        if vma.kernel {
          var cur := vma.start;
          ghost var pos := vma.start;
          CopyStarts(m, k, mem[upt], i);
          while cur != vma.end
            invariant vma.start <= pos <= EndOf(m, vma) && pos % Step(m) == 0 && cur == pos % m.word
            invariant upt in mem && mem == old(mem)[upt := mem[upt]] && |mem[upt]| == GeoOf(m).n
            invariant Copied(m, k, mem[upt], i, pos)
            decreases EndOf(m, vma) - pos
          {
            AreaLoop(m, vma, pos, Step(m));
            CopyNext(m, k, mem[upt], i, pos);
            var index := IndexOf(cur, info);
            mem := mem[upt := SetEntry(mem[upt], index, mem[kpt][index])];
            cur := (cur + Pow2(info.shift)) % m.word;
            pos := pos + Step(m);
          }
          AreaLoop(m, vma, pos, Step(m));
        }
        CopyEnds(m, k, mem[upt], i, EndOf(m, vma));
        i := i + 1;
      }
      CopyDone(m, mem, kpt, mem[upt]);
    }

    // ---- unprotect ----

    method Pgfree(page: nat)
      requires page in mem && page > 0 && page % PGSIZE == 0 && |mem[page]| == GeoOf(m).n
      requires PoolOk(GeoOf(m), mem, pool)
      modifies this`mem, this`pool
      ensures mem == old(mem) - {page} && pool.Keys == old(pool.Keys) + {page}
      ensures PoolOk(GeoOf(m), mem, pool)
    {
      pool := pool[page := mem[page]];
      mem := mem - {page};
    }

    /** Frees the table at pt and every table it leads to through user entries;
        `order` lists the freed tables in the order in which they were freed. */
    method Teardown(level: nat, pt: nat, ghost m0: Mem, ghost kent: map<nat, nat>, ghost t: Tabs, ghost k: Path)
      returns (ghost order: seq<Path>)
      requires Doomed(m, m0, kent, t) && PoolOk(GeoOf(m), mem, pool) && Intact(mem, m0, t, k)
      requires level == |k| + 1
      requires if level <= m.ptlevels then k in t && t[k] == pt else k !in t
      modifies this`mem, this`pool
      ensures FreeOrder(t, k, order)
      ensures mem == old(mem) - Sub(t, k) && pool.Keys == old(pool.Keys) + Sub(t, k)
      ensures PoolOk(GeoOf(m), mem, pool)
      decreases m.ptlevels + 1 - level, 1
    {
      hide Doomed, Intact, FreeOrder, FreeOrderFirst, PoolOk, Sub, SubFirst, Keys, Injective, Below;
      DoomedKeys(m, m0, kent, t);
      if level > m.ptlevels {
        FreeOrderEmpty(GeoOf(m), t, k);
        return [];
      }
      order := TeardownEntries(level, pt, m0, kent, t, k);
      IntactChild(old(mem), mem, m0, t, k, GeoOf(m).n);
      IntactAt(old(mem), m0, t, k);
      DoomedTable(m, m0, kent, t, k);
      Pgfree(pt);
      SubWhole(GeoOf(m), t, k);
      FreeOrderWhole(GeoOf(m), t, k, order);
      order := order + [k];
    }

    /** teardown's loop over the entries of the table at pt. */
    method TeardownEntries(level: nat, pt: nat, ghost m0: Mem, ghost kent: map<nat, nat>, ghost t: Tabs, ghost k: Path)
      returns (ghost order: seq<Path>)
      requires Doomed(m, m0, kent, t) && PoolOk(GeoOf(m), mem, pool) && Intact(mem, m0, t, k)
      requires level == |k| + 1 <= m.ptlevels && k in t && t[k] == pt
      modifies this`mem, this`pool
      ensures FreeOrderFirst(t, k, GeoOf(m).n, order)
      ensures mem == old(mem) - SubFirst(t, k, GeoOf(m).n) && pool.Keys == old(pool.Keys) + SubFirst(t, k, GeoOf(m).n)
      ensures PoolOk(GeoOf(m), mem, pool)
      decreases m.ptlevels + 1 - level, 0
    {
      hide Doomed, Intact, FreeOrder, FreeOrderFirst, PoolOk, Sub, SubFirst, Keys, Injective, Below, BaseOf;
      DoomedKeys(m, m0, kent, t);
      GoodLevel(m, level);
      FirstNone(t, k);
      order := [];
      var index := 0;
      while index < Pow2(m.pgtables[level].bits)
        invariant 0 <= index <= GeoOf(m).n
        invariant FreeOrderFirst(t, k, index, order)
        invariant mem == old(mem) - SubFirst(t, k, index) && pool.Keys == old(pool.Keys) + SubFirst(t, k, index)
        invariant PoolOk(GeoOf(m), mem, pool)
      {
        IntactChild(old(mem), mem, m0, t, k, index);
        TeardownEntry(m, m0, kent, t, k, index);
        IntactAt(old(mem), m0, t, k);
        var entry := mem[pt][index];
        ghost var below := [];
        if Present(entry) && User(entry) {
          below := Teardown(level + 1, BaseOf(entry), m0, kent, t, k + [index]);
        } else {
          FreeOrderEmpty(GeoOf(m), t, k + [index]);
        }
        FreeOrderNext(t, k, index, order, below);
        SubFirstNext(t, k, index);
        order := order + below;
        index := index + 1;
      }
    }

    /** Frees every table of the address space, and nothing else. */
    method Unprotect(space: AddrSpace) returns (ghost order: seq<Path>)
      requires Valid() && space in tabs
      modifies this`mem, this`pool, this`tabs
      ensures Valid() && tabs == old(tabs) - {space}
      ensures mem == old(mem) - Pages(old(tabs)[space])
      ensures pool.Keys == old(pool.Keys) + Pages(old(tabs)[space]) && |pool| == old(|pool|) + |old(tabs)[space]|
      ensures mem.Keys + pool.Keys == old(mem.Keys + pool.Keys)
      ensures FreeOrder(old(tabs)[space], [], order)
      ensures forall a, v: nat :: a in tabs && v < Limit(m) ==> Translate(a, v) == old(Translate(a, v))
    {
      hide Valid, Forest, Doomed, Intact, FreeOrder, PoolOk, Sub, SameView, View, Limit, Pages, Translate;
      Unfold();
      ghost var t, mem0, pool0 := tabs[space], mem, pool;
      ForestDoomed(m, mem, pool, kpt, ktabs, tabs, space);
      UserRoot(t[[]]);
      if Present(space.ptr) && User(space.ptr) {
        order := Teardown(1, BaseOf(space.ptr), mem, KentOf(m, mem, kpt), t, []);
      }
      SubRoot(t);
      Release(space, mem0, pool0);
      Translates(tabs.Keys);
    }

    /** The freed tables belong to nobody. */
    ghost method Release(space: AddrSpace, mem0: Mem, pool0: Mem)
      requires Forest(m, mem0, pool0, kpt, ktabs, tabs) && space in tabs
      requires forall a :: a in tabs ==> PtrOk(a) && BaseOf(a.ptr) == tabs[a][[]]
      requires mem == mem0 - Pages(tabs[space]) && pool.Keys == pool0.Keys + Pages(tabs[space])
      requires PoolOk(GeoOf(m), mem, pool)
      modifies this`tabs
      ensures Valid() && tabs == old(tabs) - {space} && |pool| == |pool0| + |old(tabs)[space]|
      ensures mem.Keys + pool.Keys == mem0.Keys + pool0.Keys
      ensures forall a :: a in tabs ==> SameView(m, mem0, mem, BaseOf(a.ptr))
    {
      hide Valid, Forest, PoolOk, SameView, View, Limit, Pages, BaseOf, UserTree;
      FreedCount(m, mem0, pool0, kpt, ktabs, tabs, space, pool);
      AfterUnprotect(m, mem0, pool0, kpt, ktabs, tabs, space, mem, pool);
      tabs := tabs - {space};
      Fold();
    }

    // ---- vme_init ----

    /** Sets up the kernel's tables; false when the allocator runs out, which
        happens exactly when it has fewer pages than the kernel needs. */
    method VmeInit() returns (ok: bool)
      requires Booted()
      modifies this`mem, this`pool, this`kpt, this`ktabs
      ensures ok <==> m == MMU64 || |KernelTables(m)| <= old(|pool|)
      ensures ok ==> Valid() && tabs == map[]
      ensures ok ==> |pool| == old(|pool|) - if m == MMU64 then 0 else |KernelTables(m)|
      ensures !ok ==> pool == map[]
      ensures mem.Keys + pool.Keys == old(mem.Keys + pool.Keys)
    {
      hide Forest, KernelTree, PoolOk, BootTables, BootTabs, Built, PagesTaken, KernelTables;
      if m == MMU64 {
        kpt := PML4_ADDR;
        ktabs := BootTabs();
        BootForest(mem, pool);
        return true;
      }
      var space := new AddrSpace();
      ghost var t;
      ok, t := MapKernel(space);
      if !ok {
        return false;
      }
      kpt := BaseOf(space.ptr);
      ktabs := t;
      BuiltForest(m, mem, pool, t, kpt);
      return true;
    }

    /** vme_init's loops: every page of every kernel area, mapped to itself. */
    method MapKernel(space: AddrSpace) returns (ok: bool, ghost t: Tabs)
      requires mem == map[] && PoolOk(GeoOf(m), mem, pool) && space.ptr == 0
      modifies this`mem, this`pool, space`ptr
      ensures ok <==> |KernelTables(m)| <= old(|pool|)
      ensures ok ==> Built(m, mem, t, |m.areas|, 0) && RootOk(space.ptr, t) && PoolOk(GeoOf(m), mem, pool)
      ensures ok ==> t.Keys == KernelTables(m) && |pool| == old(|pool|) - |KernelTables(m)|
      ensures !ok ==> pool == map[]
      ensures mem.Keys + pool.Keys == old(mem.Keys + pool.Keys)
    {
      hide Built, PoolOk, RootOk, PagesTaken, KernelTables;
      BuiltNothing(m);
      CountNothing(m, pool);
      NoRoot();
      ok, t := MapAreas(space, map[], |pool|);
      if ok {
        CountDone(m, t, pool, old(|pool|));
      }
    }

    method MapAreas(space: AddrSpace, ghost t0: Tabs, ghost all: nat) returns (ok: bool, ghost t: Tabs)
      requires Built(m, mem, t0, 0, 0) && RootOk(space.ptr, t0) && PoolOk(GeoOf(m), mem, pool)
      requires PagesTaken(m, t0, pool, all, 0, 0)
      modifies this`mem, this`pool, space`ptr
      ensures ok ==> Built(m, mem, t, |m.areas|, 0) && RootOk(space.ptr, t) && PoolOk(GeoOf(m), mem, pool)
      ensures ok ==> PagesTaken(m, t, pool, all, |m.areas|, 0)
      ensures !ok ==> pool == map[] && all < |KernelTables(m)|
      ensures mem.Keys + pool.Keys == old(mem.Keys + pool.Keys)
    {
      hide Built, PoolOk, AreaOk, RootOk, PagesTaken, KernelTables;
      t := t0;
      ghost var pages := mem.Keys + pool.Keys;
      var i := 0;
      while i < |m.areas|
        invariant 0 <= i <= |m.areas|
        invariant Built(m, mem, t, i, 0) && RootOk(space.ptr, t) && PoolOk(GeoOf(m), mem, pool)
        invariant PagesTaken(m, t, pool, all, i, 0)
        invariant mem.Keys + pool.Keys == pages
      {
        if m.areas[i].kernel {
          ghost var visited;
          ok, t, visited := MapArea(space, i, t, all);
          if !ok {
            return false, t;
          }
        } else {
          BuildEnds(m, mem, t, i, EndOf(m, m.areas[i]));
          CountEnds(m, t, pool, all, i);
        }
        i := i + 1;
      }
      ok := true;
    }

    /** The loop over the pages of one kernel area. */
    method MapArea(space: AddrSpace, i: nat, ghost t0: Tabs, ghost all: nat)
      returns (ok: bool, ghost t: Tabs, ghost visited: seq<nat>)
      requires i < |m.areas| && m.areas[i].kernel
      requires Built(m, mem, t0, i, 0) && RootOk(space.ptr, t0) && PoolOk(GeoOf(m), mem, pool)
      requires PagesTaken(m, t0, pool, all, i, 0)
      modifies this`mem, this`pool, space`ptr
      ensures ok ==> Built(m, mem, t, i + 1, 0) && RootOk(space.ptr, t) && PoolOk(GeoOf(m), mem, pool)
      ensures ok ==> PagesTaken(m, t, pool, all, i + 1, 0)
      ensures ok ==> InOrder(visited, m.areas[i].start, EndOf(m, m.areas[i]))
      ensures !ok ==> pool == map[] && all < |KernelTables(m)|
      ensures mem.Keys + pool.Keys == old(mem.Keys + pool.Keys)
    {
      hide Built, PoolOk, AreaOk, RootOk, PagesTaken, KernelTables;
      t := t0;
      var vma := m.areas[i];
      GoodArea(m, i);
      AlignedStart(m, i);
      var cur := vma.start;
      ghost var pos := vma.start;
      BuildStarts(m, mem, t, i);
      CountStarts(m, t, pool, all, i);
      visited := [];
      while cur != vma.end
        invariant vma.start <= pos <= EndOf(m, vma) && pos % PGSIZE == 0 && cur == pos % m.word
        invariant Built(m, mem, t, i, pos) && RootOk(space.ptr, t) && PoolOk(GeoOf(m), mem, pool)
        invariant PagesTaken(m, t, pool, all, i, pos)
        invariant InOrder(visited, vma.start, pos)
        invariant mem.Keys + pool.Keys == old(mem.Keys + pool.Keys)
        decreases EndOf(m, vma) - pos
      {
        AreaLoop(m, vma, pos, PGSIZE);
        ok, t := MapKernelPage(space, cur, t, i, all);
        if !ok {
          return false, t, visited;
        }
        visited := visited + [cur];
        cur := (cur + PGSIZE) % m.word;
        pos := pos + PGSIZE;
      }
      AreaLoop(m, vma, pos, PGSIZE);
      BuildEnds(m, mem, t, i, pos);
      CountEnds(m, t, pool, all, i);
      ok := true;
    }

    /** *ptwalk(&as, cur, PTE_W) = cur | PTE_P | PTE_W */
    method MapKernelPage(space: AddrSpace, cur: nat, ghost t: Tabs, ghost i: nat, ghost all: nat)
      returns (ok: bool, ghost t': Tabs)
      requires i < |m.areas| && m.areas[i].kernel
      requires m.areas[i].start <= cur < EndOf(m, m.areas[i]) && cur % PGSIZE == 0
      requires Built(m, mem, t, i, cur) && RootOk(space.ptr, t) && PoolOk(GeoOf(m), mem, pool)
      requires PagesTaken(m, t, pool, all, i, cur)
      modifies this`mem, this`pool, space`ptr
      ensures ok ==> Built(m, mem, t', i, cur + PGSIZE) && RootOk(space.ptr, t') && PoolOk(GeoOf(m), mem, pool)
      ensures ok ==> PagesTaken(m, t', pool, all, i, cur + PGSIZE)
      ensures !ok ==> pool == map[] && all < |KernelTables(m)|
      ensures mem.Keys + pool.Keys == old(mem.Keys + pool.Keys)
    {
      hide Built, PoolOk, Shape, Grew, RootOk, PagesTaken, KernelTables, Missing, LeafSlot, WayTo, EndOf, PathOf,
        FullPath, Pages;
      ghost var mem0, pool0 := mem, pool;
      BuiltShape(m, mem, t, i, cur);
      PathIsFull(m, cur);
      var loc;
      loc, t' := PtWalk(space, cur, KFLAGS, map[], t);
      GrewKeys(GeoOf(m), mem0, t, pool0, mem, t', pool, PathOf(m, cur));
      if loc.None? {
        CountFails(m, t, pool0, all, i, cur);
        return false, t';
      }
      CountNext(m, t, pool0, all, i, cur, t', pool);
      WriteKernel(cur, loc.value.0, loc.value.1, mem0, pool0, t, i, t');
      return true, t';
    }

    /** *ptentry = cur | PTE_P | PTE_W, for the entry of a kernel page. */
    method WriteKernel(cur: nat, page: nat, index: nat, ghost mem0: Mem, ghost pool0: Mem, ghost t: Tabs,
      ghost i: nat, ghost t': Tabs)
      requires i < |m.areas| && m.areas[i].start <= cur < EndOf(m, m.areas[i]) && cur % PGSIZE == 0
      requires Built(m, mem0, t, i, cur) && PoolOk(GeoOf(m), mem, pool)
      requires Shape(GeoOf(m), mem, map[], t', KFLAGS) && LeafSlot(m, mem, t', cur, page, index)
      requires Grew(GeoOf(m), mem0, t, pool0, mem, t', pool, PathOf(m, cur))
      modifies this`mem
      ensures Built(m, mem, t', i, cur + PGSIZE) && PoolOk(GeoOf(m), mem, pool) && mem.Keys == old(mem.Keys)
    {
      hide Built, PoolOk, Shape, Grew, EndOf;
      ghost var mem1 := mem;
      mem := mem[page := SetEntry(mem[page], index, cur + PTE_P + PTE_W)];
      BuildNext(m, mem0, pool0, t, i, cur, mem1, pool, t', page, mem);
      PoolKeys(GeoOf(m), mem1, mem, pool);
    }
  }
}
