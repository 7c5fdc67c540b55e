/** am/src/native/vme.c on one CPU: an address space is a linked list and a
    hash of pages, and the host's mappings follow the current one. */
module NativeVme {
  /** One host mapping. */
  datatype Mapping = Mapping(pa: int, prot: int)

  const USER_START := 0x4000_0000
  const USER_END := 0xc000_0000

  predicate InUser(va: int) { USER_START <= va < USER_END }

  /** struct PageMap. */
  class Page {
    var va: int
    var pa: int
    var prot: int
    var next: Page?
    var isMapped: bool
    ghost const owner: VMHead

    constructor (ghost space: VMHead)
      ensures owner == space
    {
      owner := space;
    }
  }

  /** struct VMHead; the keys of the hash are the printed addresses, one for
      each address of the user area. */
  class VMHead {
    var head: Page?
    var hash: map<int, Page>
    var nrPage: int
    ghost var nodes: seq<Page>

    constructor ()
      ensures head == null && hash == map[] && nrPage == 0 && nodes == []
    {
      head, hash, nrPage, nodes := null, map[], 0, [];
    }

    /** The list is acyclic with nrPage distinct nodes, and the hash finds
        exactly these by their addresses. */
    ghost predicate Ok()
      reads this, nodes`va, nodes`next
    {
      Chain(head, nodes) && nrPage == |nodes| && Indexed(nodes, hash)
    }

    /** The address space as a map. */
    ghost function Table(): map<int, Mapping>
      requires Ok()
      reads this, nodes`va, nodes`next, nodes`pa, nodes`prot
    {
      map va | va in hash :: Mapping(hash[va].pa, hash[va].prot)
    }

    /** Fill a page in and link it at the head of the list. */
    method Push(p: Page, va: int, pa: int, prot: int)
      modifies this`head, p
      ensures head == p && p.va == va && p.pa == pa && p.prot == prot && !p.isMapped && p.next == old(head)
    {
      p.va := va;
      p.pa := pa;
      p.prot := prot;
      p.isMapped := false;
      p.next := head;
      head := p;
    }

    /** The part of map that edits the list, the hash and the page. */
    method Link(va: int, pa: int, prot: int, now: bool) returns (ghost ring: seq<Page>)
      requires Ok() && InUser(va)
      modifies this, if va in hash then {hash[va]} else {}
      ensures head != null && head.va == va && head.pa == pa && head.prot == prot && head.isMapped == now
      ensures va !in old(hash) ==>
        Ok() && fresh(head) && head.owner == this && nodes == [head] + old(nodes) && hash == old(hash)[va := head]
      ensures va !in old(hash) ==> Table() == old(Table())[va := Mapping(pa, prot)]
      ensures va in old(hash) ==> head == old(hash)[va] && Ring(head, ring)
    {
      var p: Page;
      hide Chain, Indexed, VMHead.Ok, VMHead.Table;
      OkParts(this);
      ghost var new_, was, index, table := va !in hash, nodes, hash, Table();
      TableIs(this);
      ring := [];
      if va !in hash {
        p := new Page(this);
        hash := hash[va := p];
        nrPage := nrPage + 1;
        nodes := [p] + nodes;
      } else {
        p := hash[va];
        ring := RingOf(va);
      }
      Push(p, va, pa, prot);
      if now {
        p.isMapped := true;
      }
      if new_ {
        Extended(this, p, was, index);
        TableGrows(this, p, index, table);
      }
    }

    /** The nodes up to p, which close a ring once p is linked again. */
    lemma RingOf(va: int) returns (ring: seq<Page>)
      requires Ok() && va in hash
      ensures 0 < |ring| <= |nodes| && ring[0] == hash[va] && forall i :: 1 <= i < |ring| ==>
        ring[i] == nodes[i - 1] && ring[i] != hash[va]
      ensures |ring| > 1 ==> ring[|ring| - 1].next == hash[va]
      ensures |ring| == 1 ==> head == hash[va]
      ensures forall i :: 1 <= i < |ring| - 1 ==> ring[i].next == ring[i + 1]
      ensures |ring| > 1 ==> head == ring[1]
    {
      var p := hash[va];
      var k :| 0 <= k < |nodes| && nodes[k] == p;
      ring := [p] + nodes[..k];
      ChainAt(head, nodes, 0);
      forall i | 0 <= i < k ensures nodes[i].next == nodes[i + 1] {
        ChainAt(head, nodes, i + 1);
      }
    }

    // ---- the two loops of __am_switch ----

    /** The addresses in list order, each once. */
    lemma Addresses() returns (vas: seq<int>)
      requires Ok()
      ensures |vas| == |nodes| && (nodes == [] ==> head == null) && (nodes != [] ==> head == nodes[0])
      ensures forall k {:trigger Follows(nodes, vas, k)} :: 0 <= k < |vas| ==> Follows(nodes, vas, k)
      ensures forall j, k :: 0 <= j < k < |vas| ==> vas[j] != vas[k] && nodes[j] != nodes[k]
      ensures Lists(vas, Table())
      ensures forall p :: p in nodes ==> p.va in Table() && Table()[p.va] == Mapping(p.pa, p.prot)
    {
      TableIs(this);
      OkParts(this);
      var ns := nodes;
      vas := seq(|ns|, k requires 0 <= k < |ns| reads ns`va => ns[k].va);
      hide VMHead.Ok, VMHead.Table;
      forall k | 0 <= k < |vas| ensures Follows(nodes, vas, k) {
        Linked(head, nodes, k);
      }
      if nodes != [] {
        ChainAt(head, nodes, 0);
      }
      forall va | va in Table() ensures va in vas {
        var k :| 0 <= k < |nodes| && nodes[k] == hash[va];
        assert vas[k] == va;
      }
    }

    /** Drop every host mapping of this space. */
    method UnmapAll(was: map<int, Mapping>) returns (host: map<int, Mapping>)
      requires Ok() && was == Table() && forall p :: p in nodes ==> p.isMapped
      modifies nodes`isMapped
      ensures host == map[] && forall p :: p in nodes ==> !p.isMapped
    {
      hide Chain, Indexed, Follows, Lists, Without, VMHead.Ok, VMHead.Table;
      ghost var vas := Addresses();
      ghost var i := 0;
      host := was;
      WithoutNone(was, vas);
      var pp: Page? := head;
      while pp != null
        invariant 0 <= i <= |nodes| && pp == if i < |nodes| then nodes[i] else null
        invariant forall k :: 0 <= k < |nodes| ==> (nodes[k].isMapped <==> k >= i)
        invariant host == Without(was, vas, i)
        decreases |nodes| - i
      {
        FollowsAt(nodes, vas, i);
        WithoutMore(was, vas, i);
        if pp.isMapped {
          host := host - {pp.va};
          pp.isMapped := false;
        }
        pp := pp.next;
        i := i + 1;
      }
      WithoutAll(was, vas);
    }

    /** Map every page of this space. */
    method MapAll(was: map<int, Mapping>) returns (host: map<int, Mapping>)
      requires Ok() && was == map[]
      modifies nodes`isMapped
      ensures host == Table() && forall p :: p in nodes ==> p.isMapped
    {
      hide Chain, Indexed, Follows, Lists, FirstOf, VMHead.Ok, VMHead.Table;
      ghost var vas := Addresses();
      ghost var i, table := 0, Table();
      host := was;
      FirstNone(table, vas);
      var pp: Page? := head;
      while pp != null
        invariant 0 <= i <= |nodes| && pp == if i < |nodes| then nodes[i] else null
        invariant forall k :: 0 <= k < i ==> nodes[k].isMapped
        invariant host == FirstOf(table, vas, i)
        decreases |nodes| - i
      {
        FollowsAt(nodes, vas, i);
        FirstMore(table, vas, i);
        host := host[pp.va := Mapping(pp.pa, pp.prot)];
        pp.isMapped := true;
        pp := pp.next;
        i := i + 1;
      }
      FirstAll(table, vas);
    }
  }

  // ---- sequences of addresses ----

  /** The keys of a table, in some order. */
  ghost predicate Lists(vas: seq<int>, table: map<int, Mapping>) {
    && (forall k :: 0 <= k < |vas| ==> vas[k] in table)
    && (forall va :: va in table ==> va in vas)
    && (forall j, k :: 0 <= j < k < |vas| ==> vas[j] != vas[k])
  }

  /** A table without its first i addresses. */
  ghost function Without(table: map<int, Mapping>, vas: seq<int>, i: nat): map<int, Mapping>
    requires i <= |vas|
  {
    map va | va in table && va !in vas[..i] :: table[va]
  }

  lemma WithoutNone(table: map<int, Mapping>, vas: seq<int>)
    ensures Without(table, vas, 0) == table
  {
  }

  lemma WithoutMore(table: map<int, Mapping>, vas: seq<int>, i: nat)
    requires i < |vas|
    ensures Without(table, vas, i + 1) == Without(table, vas, i) - {vas[i]}
  {
    assert vas[..i + 1] == vas[..i] + [vas[i]];
  }

  lemma WithoutAll(table: map<int, Mapping>, vas: seq<int>)
    requires Lists(vas, table)
    ensures Without(table, vas, |vas|) == map[]
  {
    assert vas[..|vas|] == vas;
    assert forall va :: va !in Without(table, vas, |vas|);
  }

  /** Only the first i addresses of a table. */
  ghost function FirstOf(table: map<int, Mapping>, vas: seq<int>, i: nat): map<int, Mapping>
    requires i <= |vas|
  {
    map va | va in table && va in vas[..i] :: table[va]
  }

  lemma FirstNone(table: map<int, Mapping>, vas: seq<int>)
    ensures FirstOf(table, vas, 0) == map[]
  {
  }

  lemma FirstMore(table: map<int, Mapping>, vas: seq<int>, i: nat)
    requires i < |vas| && Lists(vas, table)
    ensures vas[i] in table && FirstOf(table, vas, i + 1) == FirstOf(table, vas, i)[vas[i] := table[vas[i]]]
  {
    assert vas[..i + 1] == vas[..i] + [vas[i]];
  }

  lemma FirstAll(table: map<int, Mapping>, vas: seq<int>)
    requires Lists(vas, table)
    ensures FirstOf(table, vas, |vas|) == table
  {
    assert vas[..|vas|] == vas;
    assert forall va :: va in FirstOf(table, vas, |vas|) <==> va in table;
  }

  /** Distinct pages, which the hash finds by their addresses. */
  ghost predicate Indexed(nodes: seq<Page>, hash: map<int, Page>)
    reads nodes`va
  {
    && (forall i, j :: 0 <= i < j < |nodes| ==> nodes[i] != nodes[j])
    && (forall p :: p in nodes ==> p.va in hash && hash[p.va] == p && InUser(p.va))
    && (forall va :: va in hash ==> hash[va] in nodes && hash[va].va == va)
  }

  /** Following next from `head` visits `nodes` and ends. */
  ghost predicate Chain(head: Page?, nodes: seq<Page>)
    reads nodes`next
  {
    if |nodes| == 0 then head == null else head == nodes[0] && Chain(nodes[0].next, nodes[1..])
  }

  lemma ChainAt(head: Page?, nodes: seq<Page>, i: nat)
    requires Chain(head, nodes) && i < |nodes|
    ensures (if i == 0 then head else nodes[i - 1].next) == nodes[i]
    ensures i == |nodes| - 1 ==> nodes[i].next == null
    decreases |nodes|
  {
    if i > 0 {
      ChainAt(nodes[0].next, nodes[1..], i - 1);
    } else if |nodes| > 1 {
      ChainAt(nodes[0].next, nodes[1..], 0);
    }
  }

  class Native {
    var enabled: bool
    var current: VMHead?
    var host: map<int, Mapping>
    ghost var spaces: set<VMHead>
    ghost var pages: set<Page>

    /** Lists and hashes agree, is_mapped is set exactly in the space cur, and
        the host's user mappings are those of cur. */
    ghost predicate Mirrors(cur: VMHead?)
      reads this`host, this`spaces, this`pages, spaces, pages
    {
      && (forall s, p :: s in spaces && p in s.nodes ==> p in pages && p.owner == s)
      && (forall s :: s in spaces ==> s.Ok())
      && (forall s, p :: s in spaces && p in s.nodes ==> (p.isMapped <==> s == cur))
      && (cur == null ==> host == map[])
      && (cur != null ==> cur in spaces && host == cur.Table())
    }

    ghost predicate Valid()
      reads this, spaces, pages
    {
      Mirrors(current)
    }

    constructor ()
      ensures Valid() && spaces == {} && pages == {} && current == null && !enabled
    {
      enabled, current, host, spaces, pages := false, null, map[], {}, {};
    }

    /** vme_init. */
    method Init()
      requires Valid()
      modifies this`enabled
      ensures Valid() && enabled
    {
      enabled := true;
    }

    /** protect: a new address space, without pages. */
    method Protect() returns (s: VMHead)
      requires Valid() && enabled
      modifies this`spaces
      ensures Valid() && fresh(s) && spaces == old(spaces) + {s}
      ensures s.Table() == map[]
    {
      s := new VMHead();
      assert s !in spaces;
      spaces := spaces + {s};
      assert s.Table() == map[];
    }

    method PmemMap(va: int, pa: int, prot: int)
      modifies this`host
      ensures host == old(host)[va := Mapping(pa, prot)]
    {
      host := host[va := Mapping(pa, prot)];
    }

    /** map. For an address without a page the space gets one entry more, every
        other space stays as it is, and the host follows at once if the space is
        current. For an address that has a page already, its node is linked
        again, and the list becomes a ring. */
    method Map(s: VMHead, va: int, pa: int, prot: int) returns (ghost ring: seq<Page>)
      requires Valid() && enabled && s in spaces && InUser(va)
      modifies this`host, this`pages, s, if va in s.hash then {s.hash[va]} else {}
      ensures Valid() <==> va !in old(s.hash)
      ensures va !in old(s.hash) ==> s.Table() == old(s.Table())[va := Mapping(pa, prot)]
      ensures va !in old(s.hash) ==> forall t :: t in spaces && t != s ==> t.Table() == old(t.Table())
      ensures va !in old(s.hash) ==> fresh(s.head) && s.nodes == [s.head] + old(s.nodes)
      ensures va !in old(s.hash) ==> pages == old(pages) + {s.head}
      ensures va in old(s.hash) ==> Ring(s.head, ring)
    {
      hide VMHead.Ok, VMHead.Table, Ring;
      ghost var fresh_ := va !in s.hash;
      ring := s.Link(va, pa, prot, s == current);
      var p := s.head;
      if s == current {
        PmemMap(p.va, p.pa, p.prot);
      }
      if fresh_ {
        pages := pages + {p};
        forall t | t in spaces && t != s ensures t.Ok() && t.nodes == old(t.nodes) && t.Table() == old(t.Table()) {
          assert old(t.Ok());
        }
        Grown(s);
      } else {
        RingNotOk(s, ring);
      }
    }

    /** One more page at the head of s, and the host in step. */
    twostate lemma Grown(s: VMHead)
      requires old(Valid()) && s in spaces && spaces == old(spaces) && current == old(current)
      requires s.head != null && s.head !in old(pages) && pages == old(pages) + {s.head}
      requires s.head.owner == s && (s.head.isMapped <==> s == current)
      requires s.nodes == [s.head] + old(s.nodes) && (forall q :: q in old(pages) ==> q.isMapped == old(q.isMapped))
      requires forall q :: q in s.nodes ==> q in pages
      requires s.Ok() && host == if s == current then s.Table() else old(host)
      requires forall t :: t in spaces && t != s ==> t.Ok() && t.nodes == old(t.nodes) && t.Table() == old(t.Table())
      ensures Valid()
    {
      hide VMHead.Ok, VMHead.Table;
    }

    method Leave()
      requires Valid() && current != null
      modifies this`host, pages`isMapped
      ensures Mirrors(null)
    {
      hide VMHead.Ok, VMHead.Table;
      host := current.UnmapAll(host);
    }

    method Enter(s: VMHead)
      requires Mirrors(null) && s in spaces
      modifies this`host, pages`isMapped
      ensures Mirrors(s)
    {
      hide VMHead.Ok, VMHead.Table;
      host := s.MapAll(host);
    }

    /** __am_switch: afterwards the host's user mappings are those of the new
        space, and no address space has changed. */
    method Switch(s: VMHead?)
      requires Valid() && (s != null ==> s in spaces)
      modifies this`current, this`host, pages`isMapped
      ensures Valid() && current == if enabled then s else old(current)
    {
      hide VMHead.Ok, VMHead.Table, Mirrors;
      if !enabled {
        return;
      }
      if s != current {
        if current != null {
          Leave();
        }
        if s != null {
          Enter(s);
        }
      }
      current := s;
    }
  }

  /** Node k has address vas[k], and the next node follows it. */
  ghost predicate Follows(nodes: seq<Page>, vas: seq<int>, k: nat)
    requires k < |nodes| == |vas|
    reads nodes`va, nodes`next
  {
    nodes[k].va == vas[k] && nodes[k].next == if k + 1 < |nodes| then nodes[k + 1] else null
  }

  lemma FollowsAt(nodes: seq<Page>, vas: seq<int>, k: nat)
    requires k < |nodes| == |vas| && Follows(nodes, vas, k)
    ensures nodes[k].va == vas[k] && nodes[k].next == if k + 1 < |nodes| then nodes[k + 1] else null
  {
  }

  lemma Linked(head: Page?, nodes: seq<Page>, k: nat)
    requires Chain(head, nodes) && k < |nodes|
    ensures nodes[k].next == if k + 1 < |nodes| then nodes[k + 1] else null
  {
    ChainAt(head, nodes, k);
    if k + 1 < |nodes| {
      ChainAt(head, nodes, k + 1);
    }
  }

  /** Following next from head comes back to head. */
  ghost predicate Ring(head: Page?, ring: seq<Page>)
    reads ring`next
  {
    && |ring| > 0 && head == ring[0]
    && forall i :: 0 <= i < |ring| ==> ring[i].next == ring[if i + 1 == |ring| then 0 else i + 1]
  }

  /** A ring is not a finite list. */
  lemma RingIsEndless(head: Page?, ring: seq<Page>, nodes: seq<Page>)
    requires Ring(head, ring)
    ensures !Chain(head, nodes)
  {
    RingFrom(ring, 0, nodes);
  }

  lemma RingNotOk(s: VMHead, ring: seq<Page>)
    requires Ring(s.head, ring)
    ensures !s.Ok()
  {
    RingIsEndless(s.head, ring, s.nodes);
  }

  lemma {:induction false} RingFrom(ring: seq<Page>, i: nat, nodes: seq<Page>)
    requires i < |ring| && Ring(ring[0], ring)
    ensures !Chain(ring[i], nodes)
    decreases |nodes|
  {
    if |nodes| > 0 && nodes[0] == ring[i] {
      RingFrom(ring, if i + 1 == |ring| then 0 else i + 1, nodes[1..]);
    }
  }

  lemma OkParts(s: VMHead)
    requires s.Ok()
    ensures Chain(s.head, s.nodes) && s.nrPage == |s.nodes| && Indexed(s.nodes, s.hash)
  {
  }

  lemma TableIs(s: VMHead)
    requires s.Ok()
    ensures forall va :: va in s.Table() <==> va in s.hash
    ensures forall va :: va in s.hash ==> s.Table()[va] == Mapping(s.hash[va].pa, s.hash[va].prot)
  {
  }

  lemma TableGrows(s: VMHead, p: Page, index: map<int, Page>, table: map<int, Mapping>)
    requires s.Ok() && p.va !in index && s.hash == index[p.va := p]
    requires forall va :: va in index <==> va in table
    requires forall va :: va in index ==> table[va] == Mapping(index[va].pa, index[va].prot)
    ensures s.Table() == table[p.va := Mapping(p.pa, p.prot)]
  {
    hide VMHead.Ok;
    TableIs(s);
    var bigger := table[p.va := Mapping(p.pa, p.prot)];
    assert forall va :: va in s.Table() <==> va in bigger;
    assert forall va :: va in s.hash ==> s.Table()[va] == bigger[va];
    assert s.Table() == bigger;
  }

  lemma Extended(s: VMHead, p: Page, nodes: seq<Page>, hash: map<int, Page>)
    requires s.head == p && s.nodes == [p] + nodes && s.nrPage == |s.nodes| && p !in nodes
    requires Chain(p.next, nodes) && p.va !in hash && s.hash == hash[p.va := p] && InUser(p.va)
    requires Indexed(nodes, hash)
    ensures s.Ok()
  {
    assert s.nodes[1..] == nodes;
    forall i, j | 0 <= i < j < |s.nodes| ensures s.nodes[i] != s.nodes[j] {
      assert i > 0 ==> s.nodes[i] == nodes[i - 1];
      assert s.nodes[j] == nodes[j - 1];
    }
  }
}
