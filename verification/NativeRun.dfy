/** Whole runs of the native virtual memory against plain maps. */
module NativeRun {
  import opened NativeVme

  /** Address spaces are named in the order in which protect made them; KERNEL
      stands for a context without one. */
  datatype Op =
    | Protect
    | Map(k: nat, va: int, pa: int, prot: int)
    | Switch(to: int)

  const KERNEL := -1

  /** The table of each address space, and the current one. */
  datatype Model = Model(tables: seq<map<int, Mapping>>, cur: int)

  const EMPTY: map<int, Mapping> := map[]

  /** No address is mapped twice in a space. */
  ghost predicate Legal(s: Model, op: Op) {
    match op
    case Protect => true
    case Map(k, va, _, _) => k < |s.tables| && InUser(va) && va !in s.tables[k]
    case Switch(to) => KERNEL <= to < |s.tables|
  }

  ghost function Apply(s: Model, op: Op): Model
    requires Legal(s, op)
  {
    match op
    case Protect => s.(tables := s.tables + [EMPTY])
    case Map(k, va, pa, prot) => s.(tables := s.tables[k := s.tables[k][va := Mapping(pa, prot)]])
    case Switch(to) => s.(cur := to)
  }

  ghost predicate LegalRun(s: Model, ops: seq<Op>)
    decreases |ops|
  {
    ops == [] || (Legal(s, ops[0]) && LegalRun(Apply(s, ops[0]), ops[1..]))
  }

  ghost function ApplyAll(s: Model, ops: seq<Op>): Model
    requires LegalRun(s, ops)
    decreases |ops|
  {
    if ops == [] then s else ApplyAll(Apply(s, ops[0]), ops[1..])
  }

  /** The host's user mappings: those of the current space. */
  ghost function HostOf(s: Model): map<int, Mapping>
    requires KERNEL <= s.cur < |s.tables|
  {
    if s.cur == KERNEL then EMPTY else s.tables[s.cur]
  }

  ghost predicate Agrees(n: Native, heads: seq<VMHead>, s: Model)
    reads n, n.spaces, n.pages
  {
    && n.Valid() && n.enabled && |heads| == |s.tables| && KERNEL <= s.cur < |heads|
    && (forall i, j :: 0 <= i < j < |heads| ==> heads[i] != heads[j])
    && (forall k :: 0 <= k < |heads| ==> heads[k] in n.spaces && heads[k].Table() == s.tables[k])
    && n.current == (if s.cur == KERNEL then null else heads[s.cur]) && n.host == HostOf(s)
  }

  method Step(n: Native, heads: seq<VMHead>, op: Op, ghost s: Model) returns (heads': seq<VMHead>)
    requires Agrees(n, heads, s) && Legal(s, op)
    modifies n, n.spaces, n.pages
    ensures Agrees(n, heads', Apply(s, op))
    ensures fresh(n.spaces - old(n.spaces)) && fresh(n.pages - old(n.pages))
  {
    hide VMHead.Ok, VMHead.Table, Native.Mirrors;
    heads' := heads;
    match op {
      case Protect =>
        var h := n.Protect();
        HostFollows(n);
        heads' := heads + [h];
      case Map(k, va, pa, prot) =>
        OkOf(n, heads[k]);
        TableIs(heads[k]);
        ghost var ring := n.Map(heads[k], va, pa, prot);
        HostFollows(n);
      case Switch(to) =>
        n.Switch(if to == KERNEL then null else heads[to]);
        HostFollows(n);
    }
  }

  lemma HostFollows(n: Native)
    requires n.Valid()
    ensures n.current == null ==> n.host == map[]
    ensures n.current != null ==> n.current in n.spaces && n.current.Ok() && n.host == n.current.Table()
  {
    hide VMHead.Ok, VMHead.Table;
  }

  lemma OkOf(n: Native, h: VMHead)
    requires n.Valid() && h in n.spaces
    ensures h.Ok()
  {
    hide VMHead.Ok, VMHead.Table;
  }

  /** Over every run in which no address is mapped twice in a space: the
      invariants hold, each list and hash is the table that the calls describe,
      and the host's user mappings are those of the current space. */
  method Run(n: Native, heads: seq<VMHead>, ops: seq<Op>, ghost s: Model) returns (heads': seq<VMHead>)
    requires Agrees(n, heads, s) && LegalRun(s, ops)
    modifies n, n.spaces, n.pages
    ensures Agrees(n, heads', ApplyAll(s, ops))
    ensures fresh(n.spaces - old(n.spaces)) && fresh(n.pages - old(n.pages))
    decreases |ops|
  {
    hide Agrees, Legal, Apply;
    heads' := heads;
    if |ops| > 0 {
      var next := Step(n, heads, ops[0], s);
      heads' := Run(n, next, ops[1..], Apply(s, ops[0]));
    }
  }

  const NO_SPACES := Model([], KERNEL)

  /** The same from vme_init. */
  method RunFromInit(ops: seq<Op>) returns (n: Native, heads: seq<VMHead>)
    requires LegalRun(NO_SPACES, ops)
    ensures fresh(n) && Agrees(n, heads, ApplyAll(NO_SPACES, ops))
  {
    hide LegalRun, ApplyAll;
    n := new Native();
    n.Init();
    HostFollows(n);
    heads := Run(n, [], ops, NO_SPACES);
  }
}
