/** Whole runs of the virtual-memory interface against plain maps. */
module VmeRun {
  import opened PageTree
  import opened MmuConfig
  import opened PtWalkFacts
  import opened AddressSpaceFacts
  import opened Boot64
  import opened KernelCount
  import V = Vme

  datatype Op =
    | Protect(space: AddrSpace)
    | Unprotect(space: AddrSpace)
    | Map(space: AddrSpace, va: nat, pa: nat, prot: nat)

  type PageMap = map<nat, Xlat>

  /** A protected address space: its user pages, each with physical page and
      right, and the index paths for which it has a table. */
  datatype Space = Space(pages: PageMap, tables: set<Path>)

  /** The free pages, by number only, and the protected spaces. */
  datatype Model = Model(free: nat, spaces: map<AddrSpace, Space>)

  const NO_PAGES: PageMap := map[]
  const FRESH := Space(NO_PAGES, {[]})

  /** What a client may call: an address space is protected before it is used. */
  ghost predicate Legal(s: Model, op: Op) {
    if op.Protect? then op.space !in s.spaces else op.space in s.spaces
  }

  /** The tables that a walk to va has to add. */
  ghost function NewTables(m: GoodMmu, x: Space, va: nat): set<Path> {
    WayTo(m, va) - x.tables
  }

  /** Whether map may go ahead: the arguments are in range, there are pages for
      the tables, and it removes a mapped page or adds an unmapped one. */
  ghost predicate MapAccepts(m: GoodMmu, free: nat, x: Space, va: nat, pa: nat, prot: nat) {
    && InUser(m, va) && va % PGSIZE == 0 && pa % PGSIZE == 0
    && |NewTables(m, x, va)| <= free
    && (va in x.pages <==> prot == V.MMAP_NONE)
  }

  /** The calls that end in a panic. */
  ghost predicate Panics(m: GoodMmu, s: Model, op: Op)
    requires Legal(s, op)
  {
    match op
    case Protect(_) => s.free == 0
    case Unprotect(_) => false
    case Map(a, va, pa, prot) => !MapAccepts(m, s.free, s.spaces[a], va, pa, prot)
  }

  ghost function MapPage(pages: PageMap, va: nat, pa: nat, prot: nat): PageMap {
    if prot == V.MMAP_NONE then pages - {va} else pages[va := Xlat(pa, prot / 2 % 2 == 1, true)]
  }

  ghost function Mapped(m: GoodMmu, x: Space, va: nat, pa: nat, prot: nat): Space {
    Space(MapPage(x.pages, va, pa, prot), x.tables + WayTo(m, va))
  }

  ghost function Apply(m: GoodMmu, s: Model, op: Op): Model
    requires Legal(s, op) && !Panics(m, s, op)
  {
    match op
    case Protect(a) => Model(s.free - 1, s.spaces[a := FRESH])
    case Unprotect(a) => Model(s.free + |s.spaces[a].tables|, s.spaces - {a})
    case Map(a, va, pa, prot) =>
      Model(s.free - |NewTables(m, s.spaces[a], va)|, s.spaces[a := Mapped(m, s.spaces[a], va, pa, prot)])
  }

  /** Every call up to the first that panics is one a client may make. */
  ghost predicate LegalRun(m: GoodMmu, s: Model, ops: seq<Op>)
    decreases |ops|
  {
    ops == [] || (Legal(s, ops[0]) && (!Panics(m, s, ops[0]) ==> LegalRun(m, Apply(m, s, ops[0]), ops[1..])))
  }

  /** How many calls return: all of them, or those before the first panic. */
  ghost function Completed(m: GoodMmu, s: Model, ops: seq<Op>): (n: nat)
    requires LegalRun(m, s, ops)
    ensures n <= |ops|
    decreases |ops|
  {
    if ops == [] || Panics(m, s, ops[0]) then 0 else 1 + Completed(m, Apply(m, s, ops[0]), ops[1..])
  }

  /** The model after these calls. */
  ghost function ApplyAll(m: GoodMmu, s: Model, ops: seq<Op>): Model
    requires LegalRun(m, s, ops)
    decreases |ops|
  {
    if ops == [] || Panics(m, s, ops[0]) then s else ApplyAll(m, Apply(m, s, ops[0]), ops[1..])
  }

  /** Completed stops at a call that panics, and nowhere else. */
  lemma {:induction false} StopsAtPanic(m: GoodMmu, s: Model, ops: seq<Op>)
    requires LegalRun(m, s, ops)
    ensures var n := Completed(m, s, ops);
      n < |ops| ==> Legal(ApplyAll(m, s, ops), ops[n]) && Panics(m, ApplyAll(m, s, ops), ops[n])
    decreases |ops|
  {
    hide Panics, Apply;
    if ops != [] && !Panics(m, s, ops[0]) {
      StopsAtPanic(m, Apply(m, s, ops[0]), ops[1..]);
    }
  }

  // ---- the tables and the model ----

  /** What address space a makes of a page in the model: the kernel's pages are
      themselves, a user page is what was mapped last. */
  ghost function Expected(m: GoodMmu, pages: PageMap, va: nat): Option<Xlat> {
    if InKernel(m, va) then Some(Xlat(va, true, false))
    else if va in pages then Some(pages[va]) else None
  }

  ghost predicate SeesAt(v: V.Vme, a: AddrSpace, pages: PageMap)
    reads v, a
  {
    forall va: nat :: va < Limit(v.m) && va % PGSIZE == 0 ==> v.Translate(a, va) == Expected(v.m, pages, va)
  }

  /** Every page of every space translates as the model says. */
  ghost predicate Sees(v: V.Vme, s: Model)
    reads v, v.tabs.Keys
  {
    && v.Valid() && v.tabs.Keys == s.spaces.Keys
    && (forall a :: a in s.spaces ==> SeesAt(v, a, s.spaces[a].pages))
  }

  /** The allocator and the tables are those of the model. */
  ghost predicate Counts(v: V.Vme, s: Model)
    reads v
  {
    && |v.pool| == s.free && v.tabs.Keys == s.spaces.Keys
    && (forall a :: a in s.spaces ==> v.tabs[a].Keys == s.spaces[a].tables)
  }

  ghost predicate Agrees(v: V.Vme, s: Model)
    reads v, v.tabs.Keys
  {
    Sees(v, s) && Counts(v, s)
  }

  method Step(v: V.Vme, op: Op, ghost s: Model) returns (ok: bool)
    requires Agrees(v, s) && Legal(s, op)
    modifies v`mem, v`pool, v`tabs, op.space
    ensures ok <==> !Panics(v.m, s, op)
    ensures ok ==> Agrees(v, Apply(v.m, s, op))
    ensures !ok ==> Sees(v, s)
    ensures v.mem.Keys + v.pool.Keys == old(v.mem.Keys + v.pool.Keys)
  {
    hide V.Vme.Valid, Agrees, Sees, Counts, MapAccepts, Mapped, NewTables;
    match op
    case Protect(a) =>
      ok := StepProtect(v, a, s);
    case Unprotect(a) =>
      StepUnprotect(v, a, s);
      ok := true;
    case Map(a, va, pa, prot) =>
      ok := StepMap(v, a, va, pa, prot, s);
  }

  lemma SeesFold(v: V.Vme, s: Model)
    requires v.Valid() && v.tabs.Keys == s.spaces.Keys
    requires forall a :: a in s.spaces ==> SeesAt(v, a, s.spaces[a].pages)
    ensures Sees(v, s)
  {
    hide V.Vme.Valid, SeesAt;
  }

  lemma CountsFold(v: V.Vme, s: Model)
    requires |v.pool| == s.free && v.tabs.Keys == s.spaces.Keys
    requires forall a :: a in s.spaces ==> v.tabs[a].Keys == s.spaces[a].tables
    ensures Counts(v, s)
  {
  }

  lemma SeesParts(v: V.Vme, s: Model)
    requires Agrees(v, s)
    ensures v.Valid() && |v.pool| == s.free && v.tabs.Keys == s.spaces.Keys
    ensures forall a :: a in s.spaces ==> v.tabs[a].Keys == s.spaces[a].tables
    ensures forall a :: a in s.spaces ==> SeesAt(v, a, s.spaces[a].pages)
  {
    hide V.Vme.Valid, SeesAt;
  }

  method StepProtect(v: V.Vme, a: AddrSpace, ghost s: Model) returns (ok: bool)
    requires Agrees(v, s) && a !in s.spaces
    modifies v`mem, v`pool, v`tabs, a
    ensures ok <==> s.free > 0
    ensures ok ==> Agrees(v, Model(s.free - 1, s.spaces[a := FRESH]))
    ensures !ok ==> Sees(v, s)
    ensures v.mem.Keys + v.pool.Keys == old(v.mem.Keys + v.pool.Keys)
  {
    hide V.Vme.Valid, Limit, InKernel, V.Vme.Translate, Sees, Counts, Expected;
    SeesParts(v, s);
    ok := v.Protect(a);
    forall b | b in s.spaces ensures SeesAt(v, b, s.spaces[b].pages) {
      assert old(SeesAt(v, b, s.spaces[b].pages));
    }
    if ok {
      FreshSeen(v, a);
      SeesFold(v, Model(s.free - 1, s.spaces[a := FRESH]));
      CountsFold(v, Model(s.free - 1, s.spaces[a := FRESH]));
    } else {
      SeesFold(v, s);
    }
  }

  lemma FreshSeen(v: V.Vme, a: AddrSpace)
    requires forall va: nat :: va < Limit(v.m) && va % PGSIZE == 0 ==>
      v.Translate(a, va) == if InKernel(v.m, va) then Some(Xlat(va, true, false)) else None
    ensures SeesAt(v, a, NO_PAGES)
  {
    hide V.Vme.Translate, InKernel, Limit;
  }

  method StepUnprotect(v: V.Vme, a: AddrSpace, ghost s: Model)
    requires Agrees(v, s) && a in s.spaces
    modifies v`mem, v`pool, v`tabs
    ensures Agrees(v, Model(s.free + |s.spaces[a].tables|, s.spaces - {a}))
    ensures v.mem.Keys + v.pool.Keys == old(v.mem.Keys + v.pool.Keys)
  {
    hide V.Vme.Valid, Limit, InKernel, V.Vme.Translate, FreeOrder, Pages, Sees, Counts, Expected;
    SeesParts(v, s);
    ghost var order := v.Unprotect(a);
    ghost var s' := Model(s.free + |s.spaces[a].tables|, s.spaces - {a});
    forall b | b in s'.spaces ensures SeesAt(v, b, s'.spaces[b].pages) {
      assert old(SeesAt(v, b, s.spaces[b].pages));
    }
    SeesFold(v, s');
    CountsFold(v, s');
  }

  method StepMap(v: V.Vme, a: AddrSpace, va: nat, pa: nat, prot: nat, ghost s: Model) returns (ok: bool)
    requires Agrees(v, s) && a in s.spaces
    modifies v`mem, v`pool, v`tabs, a
    ensures ok <==> MapAccepts(v.m, s.free, s.spaces[a], va, pa, prot)
    ensures ok ==>
      Agrees(v, Model(s.free - |NewTables(v.m, s.spaces[a], va)|,
        s.spaces[a := Mapped(v.m, s.spaces[a], va, pa, prot)]))
    ensures !ok ==> Sees(v, s)
    ensures v.mem.Keys + v.pool.Keys == old(v.mem.Keys + v.pool.Keys)
  {
    hide V.Vme.Valid, V.Vme.Translate, InUser, TablesMissing, WayTo, NewTables, Sees, Counts, SeesAt, MapPage,
      MapAccepts;
    SeesParts(v, s);
    MissingTables(v.m, v.tabs[a], s.spaces[a], va);
    Accepts(v, a, s.spaces[a], va, pa, prot);
    ok := MapSees(v, a, va, pa, prot, s);
    if ok {
      MapFold(v, s, a, va, pa, prot);
    } else {
      SeesFold(v, s);
    }
  }

  /** map, with its effect on the translations said by the model. */
  method MapSees(v: V.Vme, a: AddrSpace, va: nat, pa: nat, prot: nat, ghost s: Model) returns (ok: bool)
    requires v.Valid() && a in v.tabs && v.tabs.Keys == s.spaces.Keys
    requires forall b :: b in s.spaces ==> SeesAt(v, b, s.spaces[b].pages)
    modifies v`mem, v`pool, v`tabs, a
    ensures v.Valid() && a in v.tabs && v.tabs == old(v.tabs)[a := v.tabs[a]]
    ensures ok <==>
      InUser(v.m, va) && va % PGSIZE == 0 && pa % PGSIZE == 0 && old(TablesMissing(v.m, v.tabs[a], va) <= |v.pool|) &&
      (old(v.Translate(a, va)).Some? <==> prot == V.MMAP_NONE)
    ensures forall b :: b in s.spaces ==>
      SeesAt(v, b, if ok && b == a then MapPage(s.spaces[a].pages, va, pa, prot) else s.spaces[b].pages)
    ensures v.mem.Keys + v.pool.Keys == old(v.mem.Keys + v.pool.Keys)
    ensures ok ==> v.tabs[a].Keys == old(v.tabs[a].Keys) + WayTo(v.m, va)
    ensures ok ==> |v.pool| == old(|v.pool|) - old(TablesMissing(v.m, v.tabs[a], va))
  {
    hide V.Vme.Valid, Limit, InKernel, V.Vme.Translate, InUser, TablesMissing, WayTo, Expected, MapPage;
    ghost var pages := s.spaces[a].pages;
    ghost var view := imap w: nat | w < Limit(v.m) :: v.Translate(a, w);
    ok := v.Map(a, va, pa, prot);
    forall b | b in s.spaces ensures SeesAt(v, b, if ok &&
      b == a then MapPage(pages, va, pa, prot) else s.spaces[b].pages) {
      assert old(SeesAt(v, b, s.spaces[b].pages));
      if ok && b == a {
        MapSeen(v, a, pages, view, va, pa, prot);
      }
    }
  }

  lemma MapFold(v: V.Vme, s: Model, a: AddrSpace, va: nat, pa: nat, prot: nat)
    requires a in s.spaces && v.Valid() && v.tabs.Keys == s.spaces.Keys
    requires |NewTables(v.m, s.spaces[a], va)| <= s.free && |v.pool| == s.free - |NewTables(v.m, s.spaces[a], va)|
    requires v.tabs[a].Keys == s.spaces[a].tables + WayTo(v.m, va)
    requires forall b :: b in s.spaces && b != a ==>
      v.tabs[b].Keys == s.spaces[b].tables && SeesAt(v, b, s.spaces[b].pages)
    requires SeesAt(v, a, MapPage(s.spaces[a].pages, va, pa, prot))
    ensures Agrees(v, Model(s.free - |NewTables(v.m, s.spaces[a], va)|,
      s.spaces[a := Mapped(v.m, s.spaces[a], va, pa, prot)]))
  {
    hide V.Vme.Valid, SeesAt, WayTo, NewTables, MapPage;
  }

  /** A space in which one user page has been mapped or unmapped. */
  lemma MapSeen(v: V.Vme, a: AddrSpace, pages: PageMap, view: imap<nat, Option<Xlat>>, va: nat, pa: nat, prot: nat)
    requires InUser(v.m, va)
    requires forall w: nat :: w < Limit(v.m) && w % PGSIZE == 0 ==> w in view && view[w] == Expected(v.m, pages, w)
    requires forall w: nat :: w < Limit(v.m) && w % PGSIZE == 0 ==>
      v.Translate(a, w) == if w == va then v.Mapped(pa, prot) else view[w]
    ensures SeesAt(v, a, MapPage(pages, va, pa, prot))
  {
    hide V.Vme.Translate, InKernel, InUser, Limit;
    UserAddress(v.m, va);
  }

  lemma MissingTables(m: GoodMmu, t: Tabs, x: Space, va: nat)
    requires t.Keys == x.tables
    ensures TablesMissing(m, t, va) == |NewTables(m, x, va)|
  {
    MissingCount(t, PathOf(m, va), m.ptlevels);
  }

  /** The model's condition is the one that Vme.Map states. */
  lemma Accepts(v: V.Vme, a: AddrSpace, x: Space, va: nat, pa: nat, prot: nat)
    requires SeesAt(v, a, x.pages) && a in v.tabs && v.tabs[a].Keys == x.tables
    ensures MapAccepts(v.m, |v.pool|, x, va, pa, prot) <==>
      InUser(v.m, va) && va % PGSIZE == 0 && pa % PGSIZE == 0 && TablesMissing(v.m, v.tabs[a], va) <= |v.pool| &&
      (v.Translate(a, va).Some? <==> prot == V.MMAP_NONE)
    ensures MapAccepts(v.m, |v.pool|, x, va, pa, prot) ==> InUser(v.m, va)
  {
    hide SeesAt, InUser, TablesMissing, NewTables, V.Vme.Translate;
    MissingTables(v.m, v.tabs[a], x, va);
    SeenAt(v, a, x.pages, va);
  }

  lemma SeenAt(v: V.Vme, a: AddrSpace, pages: PageMap, va: nat)
    requires SeesAt(v, a, pages)
    ensures InUser(v.m, va) && va % PGSIZE == 0 ==> (v.Translate(a, va).Some? <==> va in pages)
  {
    hide V.Vme.Translate, InKernel, InUser, Limit;
    if InUser(v.m, va) {
      UserAddress(v.m, va);
    }
  }

  /** Over every legal run: the calls that return are those before the model's
      first panic, after them the tables translate every page of every address
      space exactly as the model says, also if the last call panicked, and the
      pages in use and the free ones are together what they were. */
  method Run(v: V.Vme, ops: seq<Op>, ghost s: Model) returns (done: nat)
    requires Agrees(v, s) && LegalRun(v.m, s, ops)
    modifies v`mem, v`pool, v`tabs, set i | 0 <= i < |ops| :: ops[i].space
    ensures done == Completed(v.m, s, ops)
    ensures Sees(v, ApplyAll(v.m, s, ops))
    ensures done == |ops| ==> Agrees(v, ApplyAll(v.m, s, ops))
    ensures v.mem.Keys + v.pool.Keys == old(v.mem.Keys + v.pool.Keys)
    decreases |ops|
  {
    hide Sees, Counts, Panics, Apply;
    done := 0;
    if |ops| > 0 {
      var ok := Step(v, ops[0], s);
      if ok {
        var more := Run(v, ops[1..], Apply(v.m, s, ops[0]));
        done := more + 1;
      }
    }
  }

  /** A client may rely on the fields of a protected space: map never refuses a
      page of space.area for its range, only for want of pages or because the
      page is mapped already (or is not, when it is to be removed). */
  lemma AreaIsAccepted(v: V.Vme, s: Model, a: AddrSpace, va: nat, pa: nat, prot: nat)
    requires Agrees(v, s) && a in s.spaces
    requires va % a.pgsize == 0 && pa % a.pgsize == 0 && a.area.start <= va < EndOf(v.m, a.area)
    ensures a.pgsize == PGSIZE
    ensures Panics(v.m, s, Map(a, va, pa, prot)) <==>
      |NewTables(v.m, s.spaces[a], va)| > s.free || !(va in s.spaces[a].pages <==> prot == V.MMAP_NONE)
  {
    hide InUser, SeesAt, Forest, NewTables;
    assert v.PtrOk(a);
  }

  /** When every space is torn down, only the kernel's tables are in use. */
  lemma NothingLeaks(v: V.Vme, s: Model)
    requires Sees(v, s) && s.spaces == map[]
    ensures v.mem.Keys == Pages(v.ktabs) && v.mem.Keys !! v.pool.Keys
  {
    hide Pages, KernelTree;
    assert v.tabs == map[];
  }

  /** The model of a machine that has just gone through vme_init. */
  ghost function Start(x86_64: bool, free: nat): Model
    requires x86_64 || free >= KERNEL_PAGES
  {
    Model(if x86_64 then free else free - KERNEL_PAGES, map[])
  }

  /** What vme_init takes from the pool in the 32-bit configuration. */
  const KERNEL_PAGES := 269

  ghost function Config(x86_64: bool): GoodMmu { if x86_64 then GOOD64 else GOOD32 }

  /** The same from the boot code's tables and any pool of free pages, in both
      configurations: vme_init, then any legal run. */
  method RunFromBoot(x86_64: bool, free: Mem, ops: seq<Op>) returns (booted: bool, done: nat, v: V.Vme)
    requires PoolOk(GeoOf(Config(x86_64)), if x86_64 then BootTables() else map[], free)
    requires x86_64 || |free| >= KERNEL_PAGES ==> LegalRun(Config(x86_64), Start(x86_64, |free|), ops)
    modifies set i | 0 <= i < |ops| :: ops[i].space
    ensures fresh(v) && v.m == Config(x86_64)
    ensures booted <==> x86_64 || |free| >= KERNEL_PAGES
    ensures booted ==>
      var s := Start(x86_64, |free|);
      && done == Completed(v.m, s, ops) && Sees(v, ApplyAll(v.m, s, ops))
      && (done == |ops| ==> Agrees(v, ApplyAll(v.m, s, ops)))
    ensures v.mem.Keys + v.pool.Keys == free.Keys + if x86_64 then {PML4_ADDR, PDPT_ADDR} else {}
  {
    hide Completed, ApplyAll, Sees, Counts, LegalRun, Config, PoolOk, BootTables;
    done := 0;
    booted, v := Boot(x86_64, free);
    if booted {
      done := Run(v, ops, Start(x86_64, |free|));
    }
  }

  /** vme_init on the boot code's state. */
  method Boot(x86_64: bool, free: Mem) returns (booted: bool, v: V.Vme)
    requires PoolOk(GeoOf(Config(x86_64)), if x86_64 then BootTables() else map[], free)
    ensures fresh(v) && v.m == Config(x86_64)
    ensures booted <==> x86_64 || |free| >= KERNEL_PAGES
    ensures booted ==> Agrees(v, Start(x86_64, |free|))
    ensures v.mem.Keys + v.pool.Keys == free.Keys + if x86_64 then {PML4_ADDR, PDPT_ADDR} else {}
  {
    hide PoolOk, Sees, Counts, BootTables, KernelTables, V.Vme.Valid;
    v := new V.Vme(x86_64, free);
    BootPages(x86_64);
    booted := v.VmeInit();
    if booted {
      Booted(v, Start(x86_64, |free|));
    }
  }

  lemma BootPages(x86_64: bool)
    ensures Config(x86_64) == MMU64 <==> x86_64
    ensures !x86_64 ==> |KernelTables(Config(x86_64))| == KERNEL_PAGES
    ensures BootTables().Keys == {PML4_ADDR, PDPT_ADDR}
  {
    hide KernelTables;
    Kernel32();
    assert MMU32.ptlevels != MMU64.ptlevels;
  }

  lemma Booted(v: V.Vme, s: Model)
    requires v.Valid() && v.tabs == map[] && |v.pool| == s.free && s.spaces == map[]
    ensures Agrees(v, s)
  {
    hide V.Vme.Valid;
  }
}
