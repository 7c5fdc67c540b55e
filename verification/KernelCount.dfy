/** How many pages vme_init takes for the kernel's own tables. */
module KernelCount {
  import opened Bits
  import opened PageTree
  import opened MmuConfig
  import opened PtWalkFacts
  import opened AddressSpaceFacts

  /** The pages that vme_init has mapped: areas below i, and area i up to pos. */
  ghost function PagesDone(m: GoodMmu, i: nat, pos: nat): set<nat>
    requires i <= |m.areas|
  {
    set va: nat | va < Limit(m) && va % PGSIZE == 0 && (PageBefore(m, i, va) || PagePart(m, i, pos, va))
  }

  /** The tables on the way to any of these pages. */
  ghost function TablesFor(m: GoodMmu, pages: set<nat>): set<Path> {
    set va, d: nat | va in pages && d < m.ptlevels :: PathOf(m, va)[..d]
  }

  ghost function KernelPages(m: GoodMmu): set<nat> {
    PagesDone(m, |m.areas|, 0)
  }

  /** Every table that the kernel's pages need. */
  ghost function KernelTables(m: GoodMmu): set<Path> {
    TablesFor(m, KernelPages(m))
  }

  lemma InTables(m: GoodMmu, pages: set<nat>, va: nat, d: nat)
    requires va in pages && d < m.ptlevels
    ensures PathOf(m, va)[..d] in TablesFor(m, pages)
  {
  }

  lemma TablesNone(m: GoodMmu)
    ensures PagesDone(m, 0, 0) == {} && TablesFor(m, {}) == {}
  {
    hide Limit;
  }

  /** One more page needs the tables on its way. */
  lemma TablesNext(m: GoodMmu, pages: set<nat>, va: nat)
    ensures TablesFor(m, pages + {va}) == TablesFor(m, pages) + WayTo(m, va)
  {
    hide PathOf;
    forall k | k in TablesFor(m, pages + {va}) ensures k in TablesFor(m, pages) + WayTo(m, va) {
      var v, d: nat :| v in pages + {va} && d < m.ptlevels && k == PathOf(m, v)[..d];
    }
    forall k | k in WayTo(m, va) ensures k in TablesFor(m, pages + {va}) {
      var d :| 0 <= d < m.ptlevels && k == PathOf(m, va)[..d];
      InTables(m, pages + {va}, va, d);
    }
    TablesMono(m, pages, pages + {va});
  }

  lemma TablesMono(m: GoodMmu, pages: set<nat>, pages': set<nat>)
    requires pages <= pages'
    ensures TablesFor(m, pages) <= TablesFor(m, pages')
  {
    hide PathOf;
    forall k | k in TablesFor(m, pages) ensures k in TablesFor(m, pages') {
      var v, d: nat :| v in pages && d < m.ptlevels && k == PathOf(m, v)[..d];
      InTables(m, pages', v, d);
    }
  }

  lemma PagesStart(m: GoodMmu, i: nat)
    requires i < |m.areas|
    ensures PagesDone(m, i, m.areas[i].start) == PagesDone(m, i, 0)
  {
    hide PageBefore, Limit;
  }

  lemma PagesEnd(m: GoodMmu, i: nat, end: nat)
    requires i < |m.areas| && end == EndOf(m, m.areas[i])
    ensures PagesDone(m, i + 1, 0) == PagesDone(m, i, if m.areas[i].kernel then end else 0)
  {
    hide Limit;
    forall va: nat
      ensures PageBefore(m, i + 1, va) <==> PageBefore(m, i, va) || (m.areas[i].kernel && PagePart(m, i, end, va))
    {
    }
  }

  lemma PagesNext(m: GoodMmu, i: nat, pos: nat)
    requires i < |m.areas| && m.areas[i].start <= pos < EndOf(m, m.areas[i]) && pos % PGSIZE == 0
    ensures PagesDone(m, i, pos + PGSIZE) == PagesDone(m, i, pos) + {pos}
  {
    hide PageBefore, Limit, EndOf;
    AreaBelowLimit(m, i, pos);
    forall va: nat | va % PGSIZE == 0 ensures PagePart(m, i, pos + PGSIZE, va) <==>
      PagePart(m, i, pos, va) || va == pos {
      PagePartNext(m, i, pos, va);
    }
  }

  lemma DoneAreKernel(m: GoodMmu, i: nat, pos: nat)
    requires i < |m.areas| && m.areas[i].kernel && pos <= EndOf(m, m.areas[i])
    ensures PagesDone(m, i, pos) <= KernelPages(m)
  {
    hide Limit;
    forall va: nat | PageBefore(m, i, va) || PagePart(m, i, pos, va) ensures PageBefore(m, |m.areas|, va) {
    }
  }

  // ---- what one page of vme_init's loops does to the count ----

  /** The tables that are there, and the pages they were taken from. */
  ghost predicate PagesTaken(m: GoodMmu, t: Tabs, pool: Mem, all: nat, i: nat, pos: nat)
    requires i <= |m.areas|
  {
    t.Keys == TablesFor(m, PagesDone(m, i, pos)) && |t| + |pool| == all
  }

  lemma CountNothing(m: GoodMmu, pool: Mem)
    ensures PagesTaken(m, map[], pool, |pool|, 0, 0)
  {
    hide PagesDone, TablesFor;
    TablesNone(m);
  }

  lemma CountDone(m: GoodMmu, t: Tabs, pool: Mem, all: nat)
    requires PagesTaken(m, t, pool, all, |m.areas|, 0)
    ensures t.Keys == KernelTables(m) && |KernelTables(m)| <= all && |pool| == all - |KernelTables(m)|
  {
    hide PagesDone, TablesFor;
    assert |t| == |t.Keys|;
  }

  lemma CountStarts(m: GoodMmu, t: Tabs, pool: Mem, all: nat, i: nat)
    requires i < |m.areas| && PagesTaken(m, t, pool, all, i, 0)
    ensures PagesTaken(m, t, pool, all, i, m.areas[i].start)
  {
    hide PagesDone, TablesFor;
    PagesStart(m, i);
  }

  lemma CountEnds(m: GoodMmu, t: Tabs, pool: Mem, all: nat, i: nat)
    requires i < |m.areas| && PagesTaken(m, t, pool, all, i, if m.areas[i].kernel then EndOf(m, m.areas[i]) else 0)
    ensures PagesTaken(m, t, pool, all, i + 1, 0)
  {
    hide PagesDone, TablesFor;
    PagesEnd(m, i, EndOf(m, m.areas[i]));
  }

  lemma CountNext(m: GoodMmu, t: Tabs, pool: Mem, all: nat, i: nat, pos: nat, t': Tabs, pool': Mem)
    requires i < |m.areas| && m.areas[i].start <= pos < EndOf(m, m.areas[i]) && pos % PGSIZE == 0
    requires PagesTaken(m, t, pool, all, i, pos)
    requires t'.Keys == t.Keys + WayTo(m, pos) && |t'| + |pool'| == |t| + |pool|
    ensures PagesTaken(m, t', pool', all, i, pos + PGSIZE)
  {
    hide PagesDone, TablesFor, EndOf, WayTo;
    PagesNext(m, i, pos);
    TablesNext(m, PagesDone(m, i, pos), pos);
  }

  /** When ptwalk runs out of pages, the kernel needs more than there were. */
  lemma CountFails(m: GoodMmu, t: Tabs, pool: Mem, all: nat, i: nat, pos: nat)
    requires i < |m.areas| && m.areas[i].kernel && m.areas[i].start <= pos < EndOf(m, m.areas[i]) && pos % PGSIZE == 0
    requires PagesTaken(m, t, pool, all, i, pos)
    requires |pool| < Missing(t, PathOf(m, pos), m.ptlevels)
    ensures all < |KernelTables(m)|
  {
    hide PagesDone, TablesFor, Missing, Prefixes, PathOf;
    var way := WayTo(m, pos);
    MissingCount(t, PathOf(m, pos), m.ptlevels);
    Union(t.Keys, way);
    TablesNext(m, PagesDone(m, i, pos), pos);
    assert pos + PGSIZE <= EndOf(m, m.areas[i]) by {
      AlignedStart(m, i);
      NextMultiple(pos, EndOf(m, m.areas[i]), PGSIZE);
    }
    PagesNext(m, i, pos);
    DoneAreKernel(m, i, pos + PGSIZE);
    TablesMono(m, PagesDone(m, i, pos + PGSIZE), KernelPages(m));
    Smaller(t.Keys + way, KernelTables(m));
  }

  lemma Union<T>(s: set<T>, x: set<T>)
    ensures |s + x| == |s| + |x - s|
  {
    assert s + x == s + (x - s);
  }

  lemma {:induction false} Smaller<T>(s: set<T>, x: set<T>)
    requires s <= x
    ensures |s| <= |x|
  {
    Union(s, x);
    assert s + x == x;
  }

  // ---- the 32-bit configuration ----

  /** The tables below the root for the first-level indices from lo to hi. */
  ghost function Singles(lo: nat, hi: nat): set<Path> {
    set j: nat | lo <= j < hi :: [j]
  }

  lemma {:induction false} SinglesCount(lo: nat, hi: nat)
    requires lo <= hi
    ensures |Singles(lo, hi)| == hi - lo
    decreases hi
  {
    if lo == hi {
      assert Singles(lo, hi) == {};
    } else {
      SinglesCount(lo, hi - 1);
      assert [hi - 1] !in Singles(lo, hi - 1);
      assert Singles(lo, hi) == Singles(lo, hi - 1) + {[hi - 1]};
    }
  }

  lemma Level1Of32()
    ensures GOOD32 == MMU32 && Step(GOOD32) == 0x40_0000 && Limit(GOOD32) == 0x1_0000_0000
  {
    hide Pow2;
    Pow2Values();
  }

  ghost predicate KernelRange(j: nat) { j < 256 || 1012 <= j < 1024 }

  lemma KernelPage32(va: nat)
    requires va < 0x1_0000_0000 && va % PGSIZE == 0
    ensures va in KernelPages(GOOD32) <==> KernelRange(va / 0x40_0000)
  {
    Level1Of32();
    assert PageBefore(GOOD32, 3, va) <==> va < 0x4000_0000 || 0xfd00_0000 <= va by {
      if va < 0x4000_0000 {
        assert MMU32.areas[1].kernel && MMU32.areas[1].start <= va < EndOf(MMU32, MMU32.areas[1]);
      } else if 0xfd00_0000 <= va {
        assert MMU32.areas[2].kernel && MMU32.areas[2].start <= va < EndOf(MMU32, MMU32.areas[2]);
      }
    }
  }

  lemma Path32(va: nat)
    requires va < 0x1_0000_0000
    ensures var p := PathOf(GOOD32, va); |p| == 2 && p[..0] == [] && p[..1] == [va / 0x40_0000]
  {
    Level1Of32();
    FirstIndex(GOOD32, va);
  }

  /** The 32-bit kernel needs a root and 268 tables below it. */
  lemma Kernel32()
    ensures |KernelTables(GOOD32)| == 269
  {
    hide PathOf, KernelPages, TablesFor, Singles, KernelRange;
    Level1Of32();
    forall k ensures k in KernelTables(GOOD32) <==> k in {[]} + Singles(0, 256) + Singles(1012, 1024) {
      Kernel32At(k);
    }
    assert KernelTables(GOOD32) == {[]} + Singles(0, 256) + Singles(1012, 1024);
    SinglesApart();
    SinglesCount(0, 256);
    SinglesCount(1012, 1024);
  }

  lemma SinglesApart()
    ensures [] !in Singles(0, 256) && [] !in Singles(1012, 1024) && Singles(0, 256) !! Singles(1012, 1024)
  {
  }

  lemma Kernel32At(k: Path)
    ensures k in KernelTables(GOOD32) <==> k in {[]} + Singles(0, 256) + Singles(1012, 1024)
  {
    hide PathOf, KernelPages, PagesDone;
    Level1Of32();
    if k in KernelTables(GOOD32) {
      var va: nat, d: nat :| va in KernelPages(GOOD32) && d < 2 && k == PathOf(GOOD32, va)[..d];
      PageRange(GOOD32, va);
      KernelPage32(va);
      Path32(va);
    }
    if k in {[]} + Singles(0, 256) + Singles(1012, 1024) {
      var j: nat := if k == [] then 0 else k[0];
      assert KernelRange(j);
      var va := j * 0x40_0000;
      assert va / 0x40_0000 == j && va % PGSIZE == 0;
      KernelPage32(va);
      Path32(va);
      InTables(GOOD32, KernelPages(GOOD32), va, |k|);
    }
  }

  lemma PageRange(m: GoodMmu, va: nat)
    requires va in KernelPages(m)
    ensures va < Limit(m) && va % PGSIZE == 0
  {
  }
}
