/** Multi-level page tables as words in memory: what the processor's walk reads
    (Intel SDM Volume 3A, sections 4.3 and 4.5), and the shape the kernel's own
    tables keep. A table is addressed by the indices that lead to it, so the
    root is [] and the table below entry j of table k is k + [j]. */
module PageTree {
  import opened Bits

  type Table = seq<nat>
  type Mem = map<nat, Table>
  type Path = seq<nat>
  /** Where the table reached by each path lies in memory. */
  type Tabs = map<Path, nat>

  const PGSIZE := 4096
  const PTE_P := 1
  const PTE_W := 2
  const PTE_U := 4
  const PTE_PS := 0x80

  /** Number of levels below CR3 and entries in a table. */
  datatype Geo = Geo(levels: nat, n: nat)

  datatype Option<T> = None | Some(value: T)

  /** The result of a walk: physical page, and the two rights. */
  datatype Xlat = Xlat(pa: nat, w: bool, u: bool)

  predicate Present(e: nat) { e % 2 == 1 }
  predicate Writable(e: nat) { e / 2 % 2 == 1 }
  predicate User(e: nat) { e / 4 % 2 == 1 }
  predicate Large(e: nat) { e / 128 % 2 == 1 }

  function BaseOf(e: nat): (b: nat)
    ensures b % PGSIZE == 0 && b <= e
  {
    e - e % PGSIZE
  }

  /** The page number that a list of indices spells in base n. */
  function Number(n: nat, p: Path): nat {
    if p == [] then 0 else Number(n, p[..|p| - 1]) * n + p[|p| - 1]
  }

  /** A present entry ends the walk at the last level, or at an inner level
      below the first when its page-size bit is set. */
  predicate Leaf(g: Geo, depth: nat, e: nat) {
    depth == g.levels || (2 <= depth && Large(e))
  }

  /** The walk from a table, where `done` indices have been used already. */
  function Walk(g: Geo, mem: Mem, table: nat, done: nat, rest: Path, w: bool, u: bool): Option<Xlat>
    decreases |rest|, 0
  {
    if rest == [] || table !in mem || rest[0] >= |mem[table]| then None
    else WalkEntry(g, mem, mem[table][rest[0]], done + 1, rest[1..], w, u)
  }

  function WalkEntry(g: Geo, mem: Mem, e: nat, done: nat, rest: Path, w: bool, u: bool): Option<Xlat>
    decreases |rest|, 1
  {
    if !Present(e) then None
    else if Leaf(g, done, e) then
      Some(Xlat(BaseOf(e) + Number(g.n, rest) * PGSIZE, w && Writable(e), u && User(e)))
    else Walk(g, mem, BaseOf(e), done, rest, w && Writable(e), u && User(e))
  }

  function Zeros(n: nat): Table { seq(n, i => 0) }

  function SetEntry(pt: Table, index: nat, e: nat): Table
    requires index < |pt|
  {
    pt[index := e]
  }

  ghost predicate FullPath(g: Geo, p: Path) {
    |p| == g.levels && forall i :: 0 <= i < |p| ==> p[i] < g.n
  }

  // ---- the shape of a tree built by ptwalk ----

  /** What entry j of the table at k may hold. The root's entries in `kent`
      are copies of kernel entries; every other inner entry is 0 or leads to a
      table of this tree with the flags ptwalk was called with; last-level
      entries are 0 or a present 4 KiB mapping. */
  ghost predicate EntryOk(g: Geo, kent: map<nat, nat>, t: Tabs, fl: nat, k: Path, j: nat, e: nat) {
    if k == [] && j in kent then e == kent[j] && k + [j] !in t
    else if |k| + 1 < g.levels then
      if k + [j] in t then e == t[k + [j]] + PTE_P + fl else e == 0
    else e == 0 || (Present(e) && e % PGSIZE < 8)
  }

  ghost predicate TableOk(g: Geo, mem: Mem, kent: map<nat, nat>, t: Tabs, fl: nat, k: Path)
    requires k in t
  {
    t[k] in mem && |mem[t[k]]| == g.n &&
    forall j: nat :: j < g.n ==> EntryOk(g, kent, t, fl, k, j, mem[t[k]][j])
  }

  ghost predicate KeyOk(g: Geo, t: Tabs, k: Path)
  {
    |k| < g.levels && (forall i :: 0 <= i < |k| ==> k[i] < g.n) &&
    (|k| > 0 ==> k[..|k| - 1] in t)
  }

  ghost predicate Keys(g: Geo, t: Tabs) {
    forall k {:trigger KeyOk(g, t, k)} :: k in t ==> KeyOk(g, t, k)
  }

  ghost predicate Injective(t: Tabs) {
    forall k1, k2 :: k1 in t && k2 in t && t[k1] == t[k2] ==> k1 == k2
  }

  ghost predicate Shape(g: Geo, mem: Mem, kent: map<nat, nat>, t: Tabs, fl: nat) {
    && Injective(t)
    && Keys(g, t)
    && (forall k :: k in t ==> t[k] % PGSIZE == 0 && t[k] > 0)
    && (forall k {:trigger TableOk(g, mem, kent, t, fl, k)} :: k in t ==> TableOk(g, mem, kent, t, fl, k))
  }

  lemma ShapeAt(g: Geo, mem: Mem, kent: map<nat, nat>, t: Tabs, fl: nat, k: Path)
    requires Shape(g, mem, kent, t, fl) && k in t
    ensures KeyOk(g, t, k) && t[k] % PGSIZE == 0 && t[k] > 0
    ensures TableOk(g, mem, kent, t, fl, k)
  {
  }

  /** The flags ptwalk is called with: PTE_W, or PTE_W | PTE_U. */
  ghost predicate Flags(fl: nat) { fl == PTE_W || fl == PTE_W + PTE_U }

  /** The last-level entry for a full path; 0 when its table is missing. */
  ghost function LeafAt(g: Geo, mem: Mem, t: Tabs, p: Path): nat
    requires FullPath(g, p) && g.levels > 0
  {
    var k := p[..g.levels - 1];
    if k in t && t[k] in mem && p[g.levels - 1] < |mem[t[k]]| then mem[t[k]][p[g.levels - 1]] else 0
  }

  ghost predicate SameLeaves(g: Geo, mem: Mem, t: Tabs, mem': Mem, t': Tabs)
    requires g.levels > 0
  {
    forall p :: FullPath(g, p) ==> LeafAt(g, mem', t', p) == LeafAt(g, mem, t, p)
  }

  /** The pages that hold the tables of t. */
  ghost function Pages(t: Tabs): set<nat> {
    set k | k in t :: t[k]
  }

  /** The two memories hold the same tables of t. */
  ghost predicate Agree(mem: Mem, mem': Mem, t: Tabs) {
    forall a :: a in Pages(t) && a in mem ==> a in mem' && mem'[a] == mem[a]
  }

  // ---- facts about entries ----

  /** The low bits of an aligned address plus flags are the flags. */
  lemma Flagged(base: nat, f: nat)
    requires base % PGSIZE == 0 && f < 128
    ensures var e := base + f;
      e % PGSIZE == f && BaseOf(e) == base && e % 2 == f % 2 && e / 2 % 2 == f / 2 % 2 && e / 4 % 2 == f / 4 % 2 &&
        !Large(e)
  {
    var q := base / PGSIZE;
    DivModUnique(base + f, PGSIZE, q, f);
    DivModUnique(base + f, 2, 2048 * q + f / 2, f % 2);
    DivModUnique(base + f, 4, 1024 * q + f / 4, f % 4);
    DivModUnique(base + f, 128, 32 * q, f);
    ModAdd(f / 2, 1024 * q, 2);
    ModAdd(f / 4, 512 * q, 2);
    assert 32 * q % 2 == 0;
  }

  lemma InnerEntry(base: nat, fl: nat)
    requires base % PGSIZE == 0 && Flags(fl)
    ensures var e := base + PTE_P + fl;
      Present(e) && BaseOf(e) == base && Writable(e) && (User(e) <==> fl == PTE_W + PTE_U) && !Large(e)
  {
    hide BaseOf, Large;
    Flagged(base, PTE_P + fl);
  }

  lemma ZeroEntry()
    ensures !Present(0)
  {
  }

  // ---- growing, writing, framing ----

  /** Linking a fresh zeroed table below a missing entry keeps the shape and
      every mapping. */
  lemma Grow(g: Geo, mem: Mem, kent: map<nat, nat>, t: Tabs, fl: nat, k: Path, j: nat, page: nat, mem': Mem, t': Tabs)
    requires Shape(g, mem, kent, t, fl)
    requires k in t && |k| + 1 < g.levels && j < g.n && k + [j] !in t
    requires !(k == [] && j in kent)
    requires page > 0 && page % PGSIZE == 0 && page !in mem
    requires t[k] in mem && |mem[t[k]]| == g.n
    requires mem' == mem[page := Zeros(g.n)][t[k] := SetEntry(mem[t[k]], j, page + PTE_P + fl)]
    requires t' == t[k + [j] := page]
    ensures Shape(g, mem', kent, t', fl)
    ensures SameLeaves(g, mem, t, mem', t')
  {
    hide EntryOk, SetEntry, SameLeaves, LeafAt, KeyOk;
    forall q | q in t ensures t[q] in mem && t[q] != page {
      assert TableOk(g, mem, kent, t, fl, q);
    }
    GrowNew(g, mem, kent, t, fl, k, j, page, mem', t');
    forall q | q in t ensures KeyOk(g, t', q) && TableOk(g, mem', kent, t', fl, q) {
      assert KeyOk(g, t, q) && TableOk(g, mem, kent, t, fl, q);
      GrowKey(g, t, k + [j], page, q);
      GrowOther(g, mem, kent, t, fl, k, j, page, mem', t', q);
    }
    GrowInjective(t, k + [j], page);
    GrowLeaves(g, mem, t, fl, k, j, page, mem', t');
  }

  lemma GrowKey(g: Geo, t: Tabs, c: Path, page: nat, q: Path)
    requires q in t && KeyOk(g, t, q)
    ensures KeyOk(g, t[c := page], q)
  {
  }

  lemma GrowInjective(t: Tabs, c: Path, page: nat)
    requires Injective(t) && forall q :: q in t ==> t[q] != page
    ensures Injective(t[c := page])
  {
  }

  lemma GrowNew(g: Geo, mem: Mem, kent: map<nat, nat>, t: Tabs, fl: nat, k: Path, j: nat, page: nat, mem': Mem,
    t': Tabs)
    requires Keys(g, t)
    requires k in t && |k| + 1 < g.levels && j < g.n && k + [j] !in t
    requires page in mem' && mem'[page] == Zeros(g.n)
    requires t' == t[k + [j] := page]
    ensures KeyOk(g, t', k + [j]) && TableOk(g, mem', kent, t', fl, k + [j])
  {
    var c := k + [j];
    assert c[..|c| - 1] == k;
    assert KeyOk(g, t, k);
    forall i: nat | i < g.n ensures EntryOk(g, kent, t', fl, c, i, mem'[t'[c]][i]) {
      NoChild(g, t, k, j, i);
    }
  }

  lemma GrowLeaves(g: Geo, mem: Mem, t: Tabs, fl: nat, k: Path, j: nat, page: nat, mem': Mem, t': Tabs)
    requires forall q :: q in t ==> t[q] in mem && t[q] != page
    requires k in t && |k| + 1 < g.levels && k + [j] !in t && Injective(t)
    requires j < |mem[t[k]]|
    requires mem' == mem[page := Zeros(g.n)][t[k] := SetEntry(mem[t[k]], j, page + PTE_P + fl)]
    requires t' == t[k + [j] := page]
    ensures SameLeaves(g, mem, t, mem', t')
  {
    forall p | FullPath(g, p) ensures LeafAt(g, mem', t', p) == LeafAt(g, mem, t, p) {
      var q := p[..g.levels - 1];
      if q in t {
        assert q != k && t[q] != t[k];
        assert q != k + [j];
      }
    }
  }

  lemma GrowOther(g: Geo, mem: Mem, kent: map<nat, nat>, t: Tabs, fl: nat, k: Path, j: nat, page: nat, mem': Mem,
    t': Tabs, q: Path)
    requires Injective(t)
    requires k in t && |k| + 1 < g.levels && j < g.n && k + [j] !in t
    requires !(k == [] && j in kent)
    requires t[k] in mem && |mem[t[k]]| == g.n
    requires mem' == mem[page := Zeros(g.n)][t[k] := SetEntry(mem[t[k]], j, page + PTE_P + fl)]
    requires t' == t[k + [j] := page]
    requires q in t && t[q] != page && TableOk(g, mem, kent, t, fl, q)
    ensures TableOk(g, mem', kent, t', fl, q)
  {
    hide Present;
    assert q != k ==> t[q] != t[k];
    forall i: nat | i < g.n ensures EntryOk(g, kent, t', fl, q, i, mem'[t[q]][i]) {
      assert EntryOk(g, kent, t, fl, q, i, mem[t[q]][i]);
      LastInjective(q, i, k, j);
    }
  }

  lemma NoChild(g: Geo, t: Tabs, k: Path, j: nat, i: nat)
    requires Keys(g, t)
    requires k + [j] !in t
    ensures k + [j] + [i] !in t && k + [j] + [i] != k + [j]
  {
    var q := k + [j] + [i];
    assert q[..|q| - 1] == k + [j];
    assert q in t ==> KeyOk(g, t, q);
  }

  lemma LastInjective(q: Path, i: nat, k: Path, j: nat)
    ensures q + [i] == k + [j] <==> q == k && i == j
  {
    if q + [i] == k + [j] {
      assert (q + [i])[..|q|] == q && (k + [j])[..|k|] == k;
      assert (q + [i])[|q|] == i && (k + [j])[|k|] == j;
    }
  }

  /** Writing one last-level entry keeps the shape and changes that mapping only. */
  lemma SetLeaf(g: Geo, mem: Mem, kent: map<nat, nat>, t: Tabs, fl: nat, p: Path, e: nat, mem': Mem)
    requires g.levels >= 2 && FullPath(g, p)
    requires Shape(g, mem, kent, t, fl)
    requires p[..g.levels - 1] in t
    requires e == 0 || (Present(e) && e % PGSIZE < 8)
    requires var a := t[p[..g.levels - 1]];
      a in mem && |mem[a]| == g.n && mem' == mem[a := SetEntry(mem[a], p[g.levels - 1], e)]
    ensures Shape(g, mem', kent, t, fl)
    ensures forall q :: FullPath(g, q) ==> LeafAt(g, mem', t, q) == if q == p then e else LeafAt(g, mem, t, q)
  {
    hide EntryOk, SetEntry, LeafAt;
    forall q | q in t ensures TableOk(g, mem', kent, t, fl, q) {
      assert TableOk(g, mem, kent, t, fl, q);
      SetLeafTable(g, mem, kent, t, fl, p, e, mem', q);
    }
    forall q | FullPath(g, q)
      ensures LeafAt(g, mem', t, q) == if q == p then e else LeafAt(g, mem, t, q)
    {
      SetLeafAt(g, mem, t, p, e, mem', q);
    }
  }

  lemma SetLeafTable(g: Geo, mem: Mem, kent: map<nat, nat>, t: Tabs, fl: nat, p: Path, e: nat, mem': Mem, q: Path)
    requires g.levels >= 2 && FullPath(g, p)
    requires Injective(t) && p[..g.levels - 1] in t
    requires e == 0 || (Present(e) && e % PGSIZE < 8)
    requires var a := t[p[..g.levels - 1]];
      a in mem && |mem[a]| == g.n && mem' == mem[a := SetEntry(mem[a], p[g.levels - 1], e)]
    requires q in t && TableOk(g, mem, kent, t, fl, q)
    ensures TableOk(g, mem', kent, t, fl, q)
  {
    var k := p[..g.levels - 1];
    assert q != k ==> t[q] != t[k];
    forall i: nat | i < g.n ensures EntryOk(g, kent, t, fl, q, i, mem'[t[q]][i]) {
      assert EntryOk(g, kent, t, fl, q, i, mem[t[q]][i]);
    }
  }

  lemma SetLeafAt(g: Geo, mem: Mem, t: Tabs, p: Path, e: nat, mem': Mem, q: Path)
    requires g.levels >= 2 && FullPath(g, p) && FullPath(g, q)
    requires Injective(t) && p[..g.levels - 1] in t
    requires var a := t[p[..g.levels - 1]];
      a in mem && |mem[a]| == g.n && mem' == mem[a := SetEntry(mem[a], p[g.levels - 1], e)]
    ensures LeafAt(g, mem', t, q) == if q == p then e else LeafAt(g, mem, t, q)
  {
    assert q == q[..g.levels - 1] + [q[g.levels - 1]];
    assert p == p[..g.levels - 1] + [p[g.levels - 1]];
  }

  /** A tree whose tables are untouched keeps its shape and its mappings. */
  lemma Frame(g: Geo, mem: Mem, mem': Mem, kent: map<nat, nat>, t: Tabs, fl: nat)
    requires g.levels > 0
    requires Shape(g, mem, kent, t, fl) && Agree(mem, mem', t)
    ensures Shape(g, mem', kent, t, fl)
    ensures SameLeaves(g, mem, t, mem', t)
  {
    forall k | k in t
      ensures t[k] in mem && t[k] in mem' && mem'[t[k]] == mem[t[k]] && TableOk(g, mem', kent, t, fl, k)
    {
      assert TableOk(g, mem, kent, t, fl, k);
      assert t[k] in Pages(t);
    }
  }

  // ---- what the processor sees ----

  /** The translation a leaf entry gives below inner entries with flags fl. */
  ghost function Mapping(fl: nat, e: nat): Option<Xlat> {
    if e == 0 then None
    else Some(Xlat(BaseOf(e), Writable(e), fl == PTE_W + PTE_U && User(e)))
  }

  /** The user right gathered after d levels of entries with flags fl. */
  ghost predicate UserSoFar(fl: nat, d: nat) { d == 0 || fl == PTE_W + PTE_U }

  /** Below its kernel entries, the tree is exactly the map from paths to leaf
      entries: the walk finds the leaf entry, with every inner right granted. */
  lemma {:induction false} WalkTree(g: Geo, mem: Mem, kent: map<nat, nat>, t: Tabs, fl: nat, p: Path, d: nat)
    requires g.levels >= 2 && Flags(fl) && FullPath(g, p) && d < g.levels
    requires Shape(g, mem, kent, t, fl)
    requires p[..d] in t && p[0] !in kent
    ensures Walk(g, mem, t[p[..d]], d, p[d..], true, UserSoFar(fl, d)) == Mapping(fl, LeafAt(g, mem, t, p))
    decreases g.levels - d
  {
    hide Walk, WalkEntry, Mapping, Flags;
    var k := p[..d];
    assert TableOk(g, mem, kent, t, fl, k);
    var e := mem[t[k]][p[d]];
    assert EntryOk(g, kent, t, fl, k, p[d], e);
    assert p[..d + 1] == k + [p[d]];
    assert k == [] ==> p[d] == p[0];
    WalkStep(g, mem, t[k], d, p, true, UserSoFar(fl, d));
    if d + 1 == g.levels {
      WalkLast(g, mem, e, p, fl);
    } else if p[..d + 1] in t {
      assert t[p[..d + 1]] % PGSIZE == 0;
      WalkInner(g, mem, t[p[..d + 1]], fl, d + 1, p[d + 1..], UserSoFar(fl, d));
      WalkTree(g, mem, kent, t, fl, p, d + 1);
    } else {
      WalkMissing(g, mem, fl, d + 1, p[d + 1..], UserSoFar(fl, d));
      MissingPrefix(g, t, p, d + 1);
    }
  }

  lemma WalkStep(g: Geo, mem: Mem, table: nat, d: nat, p: Path, w: bool, u: bool)
    requires d < |p| && table in mem && p[d] < |mem[table]|
    ensures Walk(g, mem, table, d, p[d..], w, u) == WalkEntry(g, mem, mem[table][p[d]], d + 1, p[d + 1..], w, u)
  {
    assert p[d..][1..] == p[d + 1..];
  }

  lemma WalkLast(g: Geo, mem: Mem, e: nat, p: Path, fl: nat)
    requires g.levels >= 2 && FullPath(g, p)
    requires e == 0 || Present(e)
    ensures WalkEntry(g, mem, e, g.levels, p[g.levels..], true, UserSoFar(fl, g.levels - 1)) == Mapping(fl, e)
  {
    assert p[g.levels..] == [];
    ZeroEntry();
  }

  lemma WalkInner(g: Geo, mem: Mem, a: nat, fl: nat, d: nat, rest: Path, u: bool)
    requires a % PGSIZE == 0 && Flags(fl) && d != g.levels
    ensures WalkEntry(g, mem, a + PTE_P + fl, d, rest, true, u) ==
      Walk(g, mem, a, d, rest, true, u && UserSoFar(fl, d + 1))
  {
    InnerEntry(a, fl);
  }

  lemma WalkMissing(g: Geo, mem: Mem, fl: nat, d: nat, rest: Path, u: bool)
    ensures WalkEntry(g, mem, 0, d, rest, true, u) == Mapping(fl, 0)
  {
    ZeroEntry();
  }

  /** Below a missing table there are no tables. */
  lemma {:induction false} MissingPrefix(g: Geo, t: Tabs, p: Path, d: nat)
    requires d <= |p| && p[..d] !in t
    requires Keys(g, t)
    ensures forall i :: d <= i <= |p| ==> p[..i] !in t
  {
    forall i | d <= i <= |p| ensures p[..i] !in t {
      MissingBelow(g, t, p, d, i);
    }
  }

  lemma {:induction false} MissingBelow(g: Geo, t: Tabs, p: Path, d: nat, i: nat)
    requires d <= i <= |p| && p[..d] !in t
    requires Keys(g, t)
    ensures p[..i] !in t
    decreases i
  {
    if i > d {
      MissingBelow(g, t, p, d, i - 1);
      assert p[..i] in t ==> KeyOk(g, t, p[..i]);
      assert p[..i][..i - 1] == p[..i - 1];
    }
  }

  // ---- kernel trees, shared by every address space ----

  /** Every table the walk can reach from k's tables is one of them. */
  ghost predicate Closed(g: Geo, mem: Mem, t: Tabs) {
    forall k :: k in t ==>
      |k| < g.levels && t[k] in mem && |mem[t[k]]| == g.n &&
      forall j: nat :: j < g.n ==> ClosedEntry(g, t, k, j, mem[t[k]][j])
  }

  ghost predicate ClosedEntry(g: Geo, t: Tabs, k: Path, j: nat, e: nat) {
    Present(e) && !Leaf(g, |k| + 1, e) ==> k + [j] in t && BaseOf(e) == t[k + [j]]
  }

  lemma ShapeIsClosed(g: Geo, mem: Mem, t: Tabs, fl: nat)
    requires Shape(g, mem, map[], t, fl) && Flags(fl)
    ensures Closed(g, mem, t)
  {
    hide EntryOk, ClosedEntry;
    forall k | k in t
      ensures |k| < g.levels && t[k] in mem && |mem[t[k]]| == g.n
      ensures forall j: nat :: j < g.n ==> ClosedEntry(g, t, k, j, mem[t[k]][j])
    {
      assert KeyOk(g, t, k) && TableOk(g, mem, map[], t, fl, k);
      forall j: nat | j < g.n ensures ClosedEntry(g, t, k, j, mem[t[k]][j]) {
        ShapeEntryIsClosed(g, t, fl, k, j, mem[t[k]][j]);
      }
    }
  }

  lemma ShapeEntryIsClosed(g: Geo, t: Tabs, fl: nat, k: Path, j: nat, e: nat)
    requires |k| < g.levels && Flags(fl)
    requires EntryOk(g, map[], t, fl, k, j, e)
    requires k + [j] in t ==> t[k + [j]] % PGSIZE == 0
    ensures ClosedEntry(g, t, k, j, e)
  {
    if k + [j] in t {
      InnerEntry(t[k + [j]], fl);
    }
  }

  /** The walk through untouched closed tables is unchanged. */
  lemma {:induction false} WalkFrame(g: Geo, mem: Mem, mem': Mem, t: Tabs, k: Path, rest: Path, w: bool, u: bool)
    requires Closed(g, mem, t) && Agree(mem, mem', t) && k in t
    ensures Walk(g, mem', t[k], |k|, rest, w, u) == Walk(g, mem, t[k], |k|, rest, w, u)
    decreases |rest|
  {
    assert t[k] in Pages(t);
    if rest != [] && rest[0] < |mem[t[k]]| {
      var e := mem[t[k]][rest[0]];
      assert ClosedEntry(g, t, k, rest[0], e);
      if Present(e) && !Leaf(g, |k| + 1, e) {
        WalkFrame(g, mem, mem', t, k + [rest[0]], rest[1..], w && Writable(e), u && User(e));
      }
    }
  }

  lemma ClosedFrame(g: Geo, mem: Mem, mem': Mem, t: Tabs)
    requires Closed(g, mem, t) && Agree(mem, mem', t)
    ensures Closed(g, mem', t)
  {
    forall k | k in t
      ensures t[k] in mem' && |mem'[t[k]]| == g.n
      ensures forall j: nat :: j < g.n ==> ClosedEntry(g, t, k, j, mem'[t[k]][j])
    {
      assert t[k] in Pages(t);
    }
  }

  /** A root that holds the kernel root's entry translates what lies below it
      exactly as the kernel root does. */
  lemma WalkShared(g: Geo, mem: Mem, root: nat, kroot: nat, p: Path)
    requires FullPath(g, p) && p != []
    requires root in mem && kroot in mem && |mem[root]| == g.n && |mem[kroot]| == g.n
    requires mem[root][p[0]] == mem[kroot][p[0]]
    ensures Walk(g, mem, root, 0, p, true, true) == Walk(g, mem, kroot, 0, p, true, true)
  {
  }

  // ---- subtrees ----

  ghost predicate Below(k: Path, q: Path) { |k| <= |q| && q[..|k|] == k }

  lemma {:induction false} HasRoot(g: Geo, t: Tabs, k: Path)
    requires k in t && Keys(g, t)
    ensures [] in t
    decreases |k|
  {
    assert KeyOk(g, t, k);
    if k != [] {
      HasRoot(g, t, k[..|k| - 1]);
    }
  }

  /** The pages of the tables at and below k. */
  ghost function Sub(t: Tabs, k: Path): set<nat> {
    set q | q in t && Below(k, q) :: t[q]
  }

  /** The pages below the first i entries of k. */
  ghost function SubFirst(t: Tabs, k: Path, i: nat): set<nat> {
    set q | q in t && Below(k, q) && |q| > |k| && q[|k|] < i :: t[q]
  }

  lemma SubFirstNext(t: Tabs, k: Path, i: nat)
    ensures SubFirst(t, k, i + 1) == SubFirst(t, k, i) + Sub(t, k + [i])
  {
    forall a ensures a in SubFirst(t, k, i + 1) <==> a in SubFirst(t, k, i) + Sub(t, k + [i]) {
      if a in SubFirst(t, k, i + 1) {
        var q :| q in t && Below(k, q) && |q| > |k| && q[|k|] < i + 1 && a == t[q];
        if q[|k|] == i {
          assert q[..|k| + 1] == k + [i];
          assert Below(k + [i], q);
        }
      }
      if a in Sub(t, k + [i]) {
        var q :| q in t && Below(k + [i], q) && a == t[q];
        assert q[|k|] == (k + [i])[|k|] == i;
        assert q[..|k|] == (k + [i])[..|k|] == k;
        assert Below(k, q);
      }
    }
  }

  lemma SubWhole(g: Geo, t: Tabs, k: Path)
    requires k in t && Keys(g, t)
    ensures Sub(t, k) == SubFirst(t, k, g.n) + {t[k]}
  {
    forall a ensures a in Sub(t, k) <==> a in SubFirst(t, k, g.n) + {t[k]} {
      if a in Sub(t, k) {
        var q :| q in t && Below(k, q) && a == t[q];
        assert KeyOk(g, t, q);
        if |q| == |k| {
          assert q == k;
        } else {
          assert q[|k|] < g.n;
        }
      }
      assert Below(k, k);
    }
  }

  lemma NoneBelow(g: Geo, t: Tabs, k: Path)
    requires k !in t && Keys(g, t)
    ensures forall q :: q in t ==> !Below(k, q)
  {
    forall q | q in t ensures !Below(k, q) {
      assert q[..|q|] == q;
      if |k| <= |q| && q[..|k|] !in t {
        MissingPrefix(g, t, q, |k|);
        assert false;
      }
    }
  }

  lemma SubRoot(t: Tabs)
    ensures Sub(t, []) == Pages(t)
  {
    forall q | q in t ensures Below([], q) && t[q] in Sub(t, []) {
      assert q[..0] == [];
    }
  }
}
