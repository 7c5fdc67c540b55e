/** How one ptwalk changes memory, as facts about the memory before and after. */
module PtWalkFacts {
  import opened PageTree

  /** From (mem0, t0) to (mem1, t1) only tables on the way to `path` were added,
      taken from the allocator's pool; no mapping and no other page changed. */
  ghost predicate Grew(g: Geo, mem0: Mem, t0: Tabs, pool0: Mem, mem1: Mem, t1: Tabs, pool1: Mem, path: Path)
    requires g.levels > 0
  {
    PagesGrew(mem0, t0, pool0, mem1, t1, pool1, path) && SameLeaves(g, mem0, t0, mem1, t1)
  }

  ghost predicate PagesGrew(mem0: Mem, t0: Tabs, pool0: Mem, mem1: Mem, t1: Tabs, pool1: Mem, path: Path) {
    && (forall k :: k in t0 ==> k in t1 && t1[k] == t0[k])
    && (forall k :: k in t1 && k !in t0 ==> t1[k] in pool0 && Below(k, path))
    && (forall a :: a in mem0 && a !in Pages(t0) ==> a in mem1 && mem1[a] == mem0[a])
    && mem1.Keys == mem0.Keys + Pages(t1)
    && pool1 == pool0 - Pages(t1)
  }

  ghost predicate PoolOk(g: Geo, mem: Mem, pool: Mem) {
    forall a :: a in pool ==> a > 0 && a % PGSIZE == 0 && |pool[a]| == g.n && a !in mem
  }

  /** The word in &as->ptr and the tree it leads to. */
  ghost predicate RootOk(ptr: nat, t: Tabs) {
    if [] in t then Present(ptr) && BaseOf(ptr) == t[[]] else ptr == 0
  }

  lemma TakeKeys(mem: Mem, pool: Mem, page: nat, pt: Table)
    requires page in pool
    ensures mem[page := pt].Keys + (pool - {page}).Keys == mem.Keys + pool.Keys
  {
  }

  lemma NoRoot()
    ensures RootOk(0, map[])
  {
  }

  lemma GrewNothing(g: Geo, mem: Mem, kent: map<nat, nat>, t: Tabs, fl: nat, pool: Mem, path: Path)
    requires g.levels > 0 && Shape(g, mem, kent, t, fl) && PoolOk(g, mem, pool)
    ensures Grew(g, mem, t, pool, mem, t, pool, path)
  {
    forall k | k in t ensures t[k] in mem {
      assert TableOk(g, mem, kent, t, fl, k);
    }
    assert pool - Pages(t) == pool;
  }

  /** One more table, below the entry that the walk is at. */
  lemma GrewOne(g: Geo, mem0: Mem, kent: map<nat, nat>, t0: Tabs, fl: nat, pool0: Mem,
                mem1: Mem, t1: Tabs, pool1: Mem, path: Path, i: nat, page: nat, mem2: Mem, t2: Tabs, pool2: Mem)
    requires FullPath(g, path) && 1 <= i < g.levels
    requires PoolOk(g, mem0, pool0) && PoolOk(g, mem1, pool1)
    requires Shape(g, mem1, kent, t1, fl)
    requires Grew(g, mem0, t0, pool0, mem1, t1, pool1, path)
    requires path[..i - 1] in t1 && path[..i] !in t1 && path[0] !in kent
    requires page in pool1 && pool2 == pool1 - {page}
    requires var a := t1[path[..i - 1]];
      a in mem1 && |mem1[a]| == g.n &&
      mem2 == mem1[page := Zeros(g.n)][a := SetEntry(mem1[a], path[i - 1], page + PTE_P + fl)]
    requires t2 == t1[path[..i] := page]
    ensures Shape(g, mem2, kent, t2, fl)
    ensures Grew(g, mem0, t0, pool0, mem2, t2, pool2, path)
    ensures PoolOk(g, mem2, pool2)
  {
    hide Shape, SetEntry, SameLeaves, Below, PoolOk, PagesGrew;
    var k := path[..i - 1];
    assert path[..i] == k + [path[i - 1]];
    assert k == [] ==> path[i - 1] == path[0];
    PoolPage(g, mem1, pool1, page);
    BelowPrefix(path, i);
    Grow(g, mem1, kent, t1, fl, k, path[i - 1], page, mem2, t2);
    GrewFrame(g, mem0, t0, pool0, mem1, t1, pool1, path, k, path[..i], page, mem2, t2, pool2);
    SameLeavesTrans(g, mem0, t0, mem1, t1, mem2, t2);
  }

  lemma PoolPage(g: Geo, mem: Mem, pool: Mem, page: nat)
    requires PoolOk(g, mem, pool) && page in pool
    ensures page > 0 && page % PGSIZE == 0 && page !in mem
  {
  }

  lemma BelowPrefix(path: Path, i: nat)
    requires i <= |path|
    ensures Below(path[..i], path)
  {
  }

  lemma SameLeavesTrans(g: Geo, mem0: Mem, t0: Tabs, mem1: Mem, t1: Tabs, mem2: Mem, t2: Tabs)
    requires g.levels > 0 && SameLeaves(g, mem0, t0, mem1, t1) && SameLeaves(g, mem1, t1, mem2, t2)
    ensures SameLeaves(g, mem0, t0, mem2, t2)
  {
  }

  lemma GrewFrame(g: Geo, mem0: Mem, t0: Tabs, pool0: Mem, mem1: Mem, t1: Tabs, pool1: Mem, path: Path,
                  k: Path, c: Path, page: nat, mem2: Mem, t2: Tabs, pool2: Mem)
    requires PagesGrew(mem0, t0, pool0, mem1, t1, pool1, path)
    requires PoolOk(g, mem0, pool0) && PoolOk(g, mem1, pool1)
    requires c !in t1 && Below(c, path) && page in pool1 && pool2 == pool1 - {page}
    requires k in t1 && t1[k] in mem1 && t2 == t1[c := page]
    requires mem2.Keys == mem1.Keys + {page}
    requires forall a :: a in mem1 && a != t1[k] ==> mem2[a] == mem1[a]
    ensures PagesGrew(mem0, t0, pool0, mem2, t2, pool2, path)
    ensures PoolOk(g, mem2, pool2)
  {
    hide Below, Pages;
    PageIn(t1, k);
    ValuesAdd(t1, c, page);
    PoolMinus(pool0, Pages(t1), page);
    assert page in pool0;
    assert PoolOk(g, mem2, pool2);
    forall a | a in mem0 && a !in Pages(t0) ensures a in mem2 && mem2[a] == mem0[a] {
      if k in t0 {
        PageIn(t0, k);
      }
    }
    forall q | q in t0 ensures q in t2 && t2[q] == t0[q] {
    }
    forall q | q in t2 && q !in t0 ensures t2[q] in pool0 && Below(q, path) {
    }
  }

  lemma PageIn(t: Tabs, k: Path)
    requires k in t
    ensures t[k] in Pages(t)
  {
  }

  lemma ValuesAdd(t: Tabs, c: Path, page: nat)
    requires c !in t
    ensures Pages(t[c := page]) == Pages(t) + {page}
  {
    var t2 := t[c := page];
    assert t2[c] == page;
    assert forall q :: q in t ==> q in t2 && t2[q] == t[q];
  }

  lemma PoolMinus(pool: Mem, used: set<nat>, page: nat)
    ensures pool - used - {page} == pool - (used + {page})
  {
  }

  /** The first table of a new tree. */
  lemma GrewRoot(g: Geo, mem0: Mem, t0: Tabs, fl: nat, pool0: Mem, path: Path, page: nat, mem2: Mem, t2: Tabs,
    pool2: Mem)
    requires g.levels >= 2 && t0 == map[]
    requires PoolOk(g, mem0, pool0) && page in pool0 && pool2 == pool0 - {page}
    requires mem2 == mem0[page := Zeros(g.n)] && t2 == map[[] := page]
    ensures Shape(g, mem2, map[], t2, fl)
    ensures Grew(g, mem0, t0, pool0, mem2, t2, pool2, path)
    ensures PoolOk(g, mem2, pool2)
  {
    hide EntryOk;
    assert t2[[]] == page;
    assert Pages(t2) == {page};
    BelowPrefix(path, 0);
    assert path[..0] == [];
    RootTable(g, mem2, t2, fl, page);
    RootLeaves(g, mem0, mem2, t2, page);
  }

  lemma RootTable(g: Geo, mem: Mem, t: Tabs, fl: nat, page: nat)
    requires page in mem && mem[page] == Zeros(g.n) && t == map[[] := page]
    ensures TableOk(g, mem, map[], t, fl, [])
  {
    forall j: nat | j < g.n ensures EntryOk(g, map[], t, fl, [], j, mem[t[[]]][j]) {
      assert [] + [j] != [];
    }
  }

  lemma RootLeaves(g: Geo, mem0: Mem, mem: Mem, t: Tabs, page: nat)
    requires g.levels >= 2
    requires page in mem && mem[page] == Zeros(g.n) && t == map[[] := page]
    ensures SameLeaves(g, mem0, map[], mem, t)
  {
  }

  /** How many tables on the way to p, of those at depths below i, are missing. */
  ghost function Missing(t: Tabs, p: Path, i: nat): nat
    requires i <= |p|
  {
    if i == 0 then 0 else Missing(t, p, i - 1) + if p[..i - 1] in t then 0 else 1
  }

  /** The first n tables on the way to p. */
  ghost function Prefixes(p: Path, n: nat): set<Path>
    requires n <= |p|
  {
    set i | 0 <= i < n :: p[..i]
  }

  /** Missing counts the prefixes that have no table. */
  lemma {:induction false} MissingCount(t: Tabs, p: Path, n: nat)
    requires n <= |p|
    ensures Missing(t, p, n) == |Prefixes(p, n) - t.Keys|
  {
    hide Prefixes;
    if n == 0 {
      PrefixesNone(p, t.Keys);
    } else {
      MissingCount(t, p, n - 1);
      PrefixesNext(p, n);
      MissingNext(Prefixes(p, n - 1), t.Keys, p[..n - 1]);
    }
  }

  lemma PrefixesNone(p: Path, keys: set<Path>)
    ensures |Prefixes(p, 0) - keys| == 0
  {
    assert Prefixes(p, 0) - keys == {};
  }

  lemma PrefixesNext(p: Path, n: nat)
    requires 0 < n <= |p|
    ensures Prefixes(p, n) == Prefixes(p, n - 1) + {p[..n - 1]} && p[..n - 1] !in Prefixes(p, n - 1)
  {
    assert |p[..n - 1]| == n - 1;
    forall k | k in Prefixes(p, n) ensures k in Prefixes(p, n - 1) || k == p[..n - 1] {
      var i :| 0 <= i < n && k == p[..i];
    }
  }

  lemma MissingNext(s: set<Path>, keys: set<Path>, q: Path)
    requires q !in s
    ensures |s + {q} - keys| == |s - keys| + if q in keys then 0 else 1
  {
    if q in keys {
      assert s + {q} - keys == s - keys;
    } else {
      assert s + {q} - keys == (s - keys) + {q};
    }
  }

  lemma {:induction false} NoneMissing(t: Tabs, p: Path, n: nat, i: nat)
    requires i < n <= |p| && Missing(t, p, n) == 0
    ensures p[..i] in t
  {
    if i < n - 1 {
      NoneMissing(t, p, n - 1, i);
    }
  }

  /** After a completed walk the tables are the old ones and the prefixes. */
  lemma GrewPrefixes(g: Geo, mem: Mem, t: Tabs, pool: Mem, mem': Mem, t': Tabs, pool': Mem, p: Path)
    requires FullPath(g, p) && g.levels > 0 && Grew(g, mem, t, pool, mem', t', pool', p) && Keys(g, t')
    requires Missing(t', p, g.levels) == 0
    ensures t'.Keys == t.Keys + Prefixes(p, g.levels)
  {
    hide SameLeaves, Pages, Missing, FullPath;
    assert |p| == g.levels by { PathLength(g, p); }
    forall k | k in t' ensures k in t || k in Prefixes(p, g.levels) {
      assert KeyOk(g, t', k);
      if k !in t {
        assert Below(k, p);
        assert p[..|k|] == k;
      }
    }
    forall k | k in Prefixes(p, g.levels) ensures k in t' {
      var i :| 0 <= i < g.levels && k == p[..i];
      NoneMissing(t', p, g.levels, i);
    }
  }

  lemma PathLength(g: Geo, p: Path)
    requires FullPath(g, p)
    ensures |p| == g.levels
  {
  }

  lemma {:induction false} MissingNone(g: Geo, t: Tabs, p: Path, j: nat)
    requires j < |p| && p[..j] in t && Keys(g, t)
    ensures Missing(t, p, j + 1) == 0
    decreases j
  {
    if j > 0 {
      assert KeyOk(g, t, p[..j]);
      assert p[..j][..j - 1] == p[..j - 1];
      MissingNone(g, t, p, j - 1);
    }
  }

  lemma {:induction false} MissingMono(t: Tabs, p: Path, i: nat, j: nat)
    requires i <= j <= |p|
    ensures Missing(t, p, i) <= Missing(t, p, j)
    decreases j
  {
    if i < j {
      MissingMono(t, p, i, j - 1);
    }
  }
  /** The word the walk reads for index i of the path: present exactly when the
      next table exists, and then it leads there. */
  lemma EntryPresent(g: Geo, mem: Mem, kent: map<nat, nat>, t: Tabs, fl: nat, p: Path, i: nat, ptr: nat, entry: nat)
    requires FullPath(g, p) && i < g.levels && Flags(fl)
    requires Shape(g, mem, kent, t, fl) && RootOk(ptr, t)
    requires p[0] !in kent
    requires i == 0 ==> entry == ptr
    requires i > 0 ==>
      p[..i - 1] in t && t[p[..i - 1]] in mem && |mem[t[p[..i - 1]]]| == g.n && entry == mem[t[p[..i - 1]]][p[i - 1]]
    ensures Present(entry) <==> p[..i] in t
    ensures Present(entry) ==> BaseOf(entry) == t[p[..i]]
  {
    hide Shape, EntryOk;
    ZeroEntry();
    if i == 0 {
      assert p[..0] == [];
    } else {
      ShapeAt(g, mem, kent, t, fl, p[..i - 1]);
      assert p[..i] == p[..i - 1] + [p[i - 1]];
      if p[..i] in t {
        ShapeAt(g, mem, kent, t, fl, p[..i]);
      }
      EntryLeads(g, kent, t, fl, p[..i - 1], p[i - 1], entry);
    }
  }

  lemma EntryLeads(g: Geo, kent: map<nat, nat>, t: Tabs, fl: nat, k: Path, j: nat, e: nat)
    requires Flags(fl) && |k| + 1 < g.levels
    requires EntryOk(g, kent, t, fl, k, j, e) && !(k == [] && j in kent)
    requires k + [j] in t ==> t[k + [j]] % PGSIZE == 0
    ensures Present(e) <==> k + [j] in t
    ensures Present(e) ==> BaseOf(e) == t[k + [j]]
  {
    ZeroEntry();
    if k + [j] in t {
      InnerEntry(t[k + [j]], fl);
    }
  }

  /** Where ptwalk is before its iteration i: everything it has done since it
      began in (mem0, t0, pool0), and the table `cur` it is about to index. */
  datatype Cursor = Cursor(mem: Mem, t: Tabs, pool: Mem, ptr: nat)

  ghost predicate Walking(g: Geo, kent: map<nat, nat>, fl: nat, p: Path, s0: Cursor, s: Cursor, i: nat, cur: nat)
    requires FullPath(g, p) && i <= g.levels && g.levels > 0
  {
    && PoolOk(g, s.mem, s.pool)
    && RootOk(s.ptr, s.t) && ([] in s0.t ==> s.ptr == s0.ptr)
    && ([] in s.t || (s.t == map[] && s0.t == map[] && kent == map[]))
    && Shape(g, s.mem, kent, s.t, fl)
    && Grew(g, s0.mem, s0.t, s0.pool, s.mem, s.t, s.pool, p)
    && (i > 0 ==> p[..i - 1] in s.t && cur == s.t[p[..i - 1]])
    && Counted(p, s0, s, i)
  }

  ghost predicate Counted(p: Path, s0: Cursor, s: Cursor, i: nat)
    requires i <= |p|
  {
    && |s.t| == |s0.t| + Missing(s0.t, p, i)
    && |s.pool| == |s0.pool| - Missing(s0.t, p, i)
    && (forall k :: k in s.t && k !in s0.t ==> |k| < i)
    && (forall k :: k in s0.t ==> k in s.t)
    && (Missing(s0.t, p, i) == 0 ==> s == s0)
  }

  lemma WalkStarts(g: Geo, kent: map<nat, nat>, fl: nat, p: Path, s: Cursor, cur: nat)
    requires FullPath(g, p) && g.levels > 0
    requires PoolOk(g, s.mem, s.pool) && RootOk(s.ptr, s.t) && Shape(g, s.mem, kent, s.t, fl)
    requires [] in s.t || (s.t == map[] && kent == map[])
    ensures Walking(g, kent, fl, p, s, s, 0, cur)
  {
    GrewNothing(g, s.mem, kent, s.t, fl, s.pool, p);
  }

  /** The word that iteration i reads. */
  ghost function WordAt(s: Cursor, p: Path, i: nat, cur: nat): nat
    requires i <= |p|
    requires i > 0 ==> cur in s.mem && p[i - 1] < |s.mem[cur]|
  {
    if i == 0 then s.ptr else s.mem[cur][p[i - 1]]
  }

  lemma WalkReads(g: Geo, kent: map<nat, nat>, fl: nat, p: Path, s0: Cursor, s: Cursor, i: nat, cur: nat)
    requires FullPath(g, p) && i <= g.levels && g.levels > 0 && Flags(fl) && p[0] !in kent
    requires Walking(g, kent, fl, p, s0, s, i, cur)
    ensures PoolOk(g, s.mem, s.pool)
    ensures i > 0 ==> cur in s.mem && |s.mem[cur]| == g.n
    ensures i < g.levels ==> (Present(WordAt(s, p, i, cur)) <==> p[..i] in s.t)
    ensures p[..i] in s.t && i < g.levels ==> BaseOf(WordAt(s, p, i, cur)) == s.t[p[..i]]
    ensures i < g.levels ==> (p[..i] in s.t <==> p[..i] in s0.t)
  {
    hide Shape, Grew, PoolOk, Present, BaseOf;
    if i > 0 {
      ShapeAt(g, s.mem, kent, s.t, fl, p[..i - 1]);
    }
    if i < g.levels {
      EntryPresent(g, s.mem, kent, s.t, fl, p, i, s.ptr, WordAt(s, p, i, cur));
    }
  }

  /** The walk goes on into a table that is there. */
  lemma WalkGoesOn(g: Geo, kent: map<nat, nat>, fl: nat, p: Path, s0: Cursor, s: Cursor, i: nat, cur: nat)
    requires FullPath(g, p) && i < g.levels && g.levels > 0
    requires Walking(g, kent, fl, p, s0, s, i, cur)
    requires p[..i] in s.t && p[..i] in s0.t
    ensures Walking(g, kent, fl, p, s0, s, i + 1, s.t[p[..i]])
  {
    hide Shape, Grew, PoolOk, RootOk;
  }

  /** The walk links the zeroed page it was given, and goes on into it. */
  lemma WalkLinks(g: Geo, kent: map<nat, nat>, fl: nat, p: Path, s0: Cursor, s: Cursor, i: nat, cur: nat, page: nat,
    s': Cursor)
    requires FullPath(g, p) && i < g.levels && g.levels >= 2 && Flags(fl) && p[0] !in kent
    requires PoolOk(g, s0.mem, s0.pool)
    requires Walking(g, kent, fl, p, s0, s, i, cur)
    requires p[..i] !in s.t && p[..i] !in s0.t
    requires page in s.pool && s'.pool == s.pool - {page} && |s'.pool| == |s.pool| - 1
    requires s'.t == s.t[p[..i] := page]
    requires i > 0 ==> cur in s.mem && |s.mem[cur]| == g.n
    requires i == 0 ==> s'.mem == s.mem[page := Zeros(g.n)] && s'.ptr == page + PTE_P + fl
    requires i > 0 ==> s'.ptr == s.ptr
    requires i > 0 ==>
      s'.mem == s.mem[page := Zeros(g.n)][cur := SetEntry(s.mem[cur], p[i - 1], page + PTE_P + fl)]
    ensures Walking(g, kent, fl, p, s0, s', i + 1, page)
  {
    hide Walking, Counted, RootOk, Shape, Grew, PoolOk, Present, BaseOf, Zeros, SetEntry;
    WalkUnfold(g, kent, fl, p, s0, s, i, cur);
    PoolPage(g, s.mem, s.pool, page);
    CountOne(p, s0, s, i, page, s');
    if i == 0 {
      assert p[..0] == [];
      RootIs(page, fl, s'.t);
      GrewRoot(g, s.mem, s.t, fl, s.pool, p, page, s'.mem, s'.t, s'.pool);
    } else {
      assert p[..i] != [];
      RootStays(s.ptr, s.t, s'.t);
      GrewOne(g, s0.mem, kent, s0.t, fl, s0.pool, s.mem, s.t, s.pool, p, i, page, s'.mem, s'.t, s'.pool);
    }
    WalkFold(g, kent, fl, p, s0, s', i + 1, page);
  }

  lemma WalkUnfold(g: Geo, kent: map<nat, nat>, fl: nat, p: Path, s0: Cursor, s: Cursor, i: nat, cur: nat)
    requires FullPath(g, p) && i < g.levels && g.levels >= 2
    requires Walking(g, kent, fl, p, s0, s, i, cur) && p[..i] !in s.t && p[..i] !in s0.t
    ensures PoolOk(g, s.mem, s.pool) && RootOk(s.ptr, s.t) && Shape(g, s.mem, kent, s.t, fl) && Counted(p, s0, s, i)
    ensures Grew(g, s0.mem, s0.t, s0.pool, s.mem, s.t, s.pool, p)
    ensures [] in s0.t ==> s.ptr == s0.ptr
    ensures i > 0 ==> [] in s.t && p[..i - 1] in s.t && cur == s.t[p[..i - 1]]
    ensures i == 0 ==> s.t == map[] && s0.t == map[] && kent == map[] && s == s0
  {
    hide Shape, Grew, PoolOk;
    assert p[..0] == [];
  }

  lemma WalkFold(g: Geo, kent: map<nat, nat>, fl: nat, p: Path, s0: Cursor, s: Cursor, i: nat, cur: nat)
    requires FullPath(g, p) && 0 < i <= g.levels && g.levels > 0
    requires PoolOk(g, s.mem, s.pool) && RootOk(s.ptr, s.t) && Shape(g, s.mem, kent, s.t, fl) && Counted(p, s0, s, i)
    requires Grew(g, s0.mem, s0.t, s0.pool, s.mem, s.t, s.pool, p)
    requires ([] in s0.t ==> s.ptr == s0.ptr) && [] in s.t && p[..i - 1] in s.t && cur == s.t[p[..i - 1]]
    ensures Walking(g, kent, fl, p, s0, s, i, cur)
  {
  }

  lemma RootIs(page: nat, fl: nat, t: Tabs)
    requires page % PGSIZE == 0 && Flags(fl) && [] in t && t[[]] == page
    ensures RootOk(page + PTE_P + fl, t)
  {
    InnerEntry(page, fl);
  }

  lemma RootStays(ptr: nat, t: Tabs, t': Tabs)
    requires RootOk(ptr, t) && [] in t && [] in t' && t'[[]] == t[[]]
    ensures RootOk(ptr, t')
  {
  }

  lemma CountOne(p: Path, s0: Cursor, s: Cursor, i: nat, page: nat, s': Cursor)
    requires i < |p| && Counted(p, s0, s, i)
    requires p[..i] !in s.t && p[..i] !in s0.t
    requires |s'.pool| == |s.pool| - 1 && s'.t == s.t[p[..i] := page]
    ensures Counted(p, s0, s', i + 1)
  {
  }

  /** At the last level every fact about the whole walk holds. */
  lemma WalkEnds(g: Geo, kent: map<nat, nat>, fl: nat, p: Path, s0: Cursor, s: Cursor, cur: nat)
    requires FullPath(g, p) && g.levels >= 2 && Flags(fl) && p[0] !in kent
    requires Walking(g, kent, fl, p, s0, s, g.levels, cur)
    ensures p[..g.levels - 1] in s.t && cur == s.t[p[..g.levels - 1]] && cur in s.mem && |s.mem[cur]| == g.n
    ensures PoolOk(g, s.mem, s.pool) && RootOk(s.ptr, s.t) && ([] in s0.t ==> s.ptr == s0.ptr)
    ensures Shape(g, s.mem, kent, s.t, fl)
    ensures Grew(g, s0.mem, s0.t, s0.pool, s.mem, s.t, s.pool, p)
    ensures |s0.pool| >= Missing(s0.t, p, g.levels)
    ensures |s.t| == |s0.t| + Missing(s0.t, p, g.levels) && |s.pool| == |s0.pool| - Missing(s0.t, p, g.levels)
    ensures s.t.Keys == s0.t.Keys + Prefixes(p, g.levels)
    ensures Missing(s.t, p, g.levels) == 0
    ensures Missing(s0.t, p, g.levels) == 0 ==> s == s0
  {
    hide Shape, Grew, PoolOk, RootOk, Keys;
    WalkReads(g, kent, fl, p, s0, s, g.levels, cur);
    ShapeKeys(g, s.mem, kent, s.t, fl);
    MissingNone(g, s.t, p, g.levels - 1);
    GrewPrefixes(g, s0.mem, s0.t, s0.pool, s.mem, s.t, s.pool, p);
  }

  lemma ShapeKeys(g: Geo, mem: Mem, kent: map<nat, nat>, t: Tabs, fl: nat)
    requires Shape(g, mem, kent, t, fl)
    ensures Keys(g, t)
  {
  }

  /** Out of pages before the last level. */
  lemma WalkFails(g: Geo, kent: map<nat, nat>, fl: nat, p: Path, s0: Cursor, s: Cursor, i: nat, cur: nat)
    requires FullPath(g, p) && i < g.levels && g.levels >= 2
    requires Walking(g, kent, fl, p, s0, s, i, cur)
    requires p[..i] !in s.t && p[..i] !in s0.t && s.pool == map[]
    ensures PoolOk(g, s.mem, s.pool) && RootOk(s.ptr, s.t) && ([] in s0.t ==> s.ptr == s0.ptr)
    ensures Shape(g, s.mem, kent, s.t, fl)
    ensures Grew(g, s0.mem, s0.t, s0.pool, s.mem, s.t, s.pool, p)
    ensures |s0.pool| < Missing(s0.t, p, g.levels)
  {
    hide Shape, Grew, PoolOk, RootOk;
    MissingMono(s0.t, p, i + 1, g.levels);
  }
}
