/** mpe_init and othercpu_entry (mpe.c, trm.c) as a step system: the boot CPU
    starts the application processors one after another, and each acknowledges
    through ap_ready. */
module Bringup {
  datatype BootPc =
    | SetUp              // user_entry = entry, and the boot record's jump
    | Loop(cpu: nat)     // the for loop at `cpu`
    | Start(cpu: nat)    // __am_lapic_bootap
    | Spin(cpu: nat)     // while (xchg(&ap_ready, 0) != 1)
    | BootEnters         // user_entry()

  datatype ApPc =
    | Off
    | Started            // at the boot record, before the test of is_ap
    | BootPath           // took the boot CPU's path instead
    | Initializing       // __am_percpu_init
    | Acknowledging      // xchg(&ap_ready, 1)
    | Calling            // call_user_entry
    | InUser

  /** starts counts the start-up interrupts sent to each processor. */
  datatype System = System(
    boot: BootPc, aps: seq<ApPc>, isAp: bool, ready: int, entrySet: bool, inited: set<nat>, starts: seq<nat>)

  datatype Event = Boot | Ap(cpu: nat)

  /** The number of processors is |aps|; processor 0 is the boot CPU, whose
      place in aps is never used. */
  function Initial(n: nat): System
    requires n > 0
  {
    System(SetUp, seq(n, i => Off), false, 0, false, {0}, seq(n, i => 0))
  }

  predicate Enabled(e: Event, s: System) {
    match e
    case Boot => s.boot != BootEnters
    case Ap(cpu) => 1 <= cpu < |s.aps| && s.aps[cpu] != Off && s.aps[cpu] != InUser
  }

  function BootStep(s: System): System
    requires |s.starts| == |s.aps|
  {
    match s.boot
    case SetUp => s.(entrySet := true, boot := Loop(1))
    case Loop(cpu) => if cpu < |s.aps| then s.(isAp := true, boot := Start(cpu)) else s.(boot := BootEnters)
    case Start(cpu) =>
      if cpu < |s.aps| then s.(aps := s.aps[cpu := Started], starts := s.starts[cpu := s.starts[cpu] + 1],
        boot := Spin(cpu)) else s
    case Spin(cpu) => s.(ready := 0, boot := if s.ready == 1 then Loop(cpu + 1) else Spin(cpu))
    case BootEnters => s
  }

  function ApStep(s: System, cpu: nat): System
    requires cpu < |s.aps|
  {
    match s.aps[cpu]
    case Started => s.(aps := s.aps[cpu := if s.isAp then Initializing else BootPath])
    case Initializing => s.(aps := s.aps[cpu := Acknowledging], inited := s.inited + {cpu})
    case Acknowledging => s.(aps := s.aps[cpu := Calling], ready := 1)
    case Calling => s.(aps := s.aps[cpu := InUser])
    case _ => s
  }

  function Next(e: Event, s: System): (s': System)
    requires Enabled(e, s) && |s.starts| == |s.aps|
    ensures |s'.starts| == |s'.aps|
  {
    match e
    case Boot => BootStep(s)
    case Ap(cpu) => ApStep(s, cpu)
  }

  /** Between its start and its acknowledgement. */
  predicate Busy(p: ApPc) { p.Started? || p.BootPath? || p.Initializing? || p.Acknowledging? }

  /** The processor that the boot CPU is starting, or the next one. */
  function Current(s: System): nat {
    match s.boot
    case SetUp => 1
    case Loop(cpu) => cpu
    case Start(cpu) => cpu
    case Spin(cpu) => cpu
    case BootEnters => |s.aps|
  }

  predicate Done(s: System, cpu: nat)
    requires cpu < |s.aps| == |s.starts|
  {
    (s.aps[cpu] == Calling || s.aps[cpu] == InUser) && cpu in s.inited && s.starts[cpu] == 1
  }

  predicate Untouched(s: System, cpu: nat)
    requires cpu < |s.aps| == |s.starts|
  {
    s.aps[cpu] == Off && s.starts[cpu] == 0
  }

  ghost predicate Inv(s: System) {
    && |s.aps| == |s.starts| > 0 && 1 <= Current(s) <= |s.aps| && 0 in s.inited
    && (s.boot != SetUp ==> s.entrySet)
    && (s.boot.Start? || s.boot.Spin? ==> Current(s) < |s.aps| && s.isAp)
    && (forall i: nat :: 1 <= i < Current(s) ==> Done(s, i))
    && (forall i: nat :: Current(s) < i < |s.aps| ==> Untouched(s, i))
    && (Current(s) < |s.aps| && !s.boot.Spin? ==> Untouched(s, Current(s)))
    && (s.ready == 0 || s.ready == 1)
    && (s.ready == 1 ==> s.boot.Spin?)
    && (s.boot.Spin? ==>
          && s.starts[Current(s)] == 1 && s.aps[Current(s)] != Off && s.aps[Current(s)] != BootPath
          && (s.ready == 1 <==> s.aps[Current(s)] == Calling || s.aps[Current(s)] == InUser)
          && (s.aps[Current(s)] == Acknowledging || s.ready == 1 ==> Current(s) in s.inited))
  }

  lemma BootInv(s: System)
    requires Inv(s) && s.boot != BootEnters
    ensures Inv(BootStep(s))
  {
    var s' := BootStep(s);
    forall i: nat | 1 <= i < Current(s') ensures Done(s', i) {
      assert i < Current(s) ==> Done(s, i);
    }
    forall i: nat | Current(s') < i < |s'.aps| ensures Untouched(s', i) {
      assert Untouched(s, i);
    }
    assert Current(s) < Current(s') < |s'.aps| ==> Untouched(s, Current(s'));
  }

  lemma ApInv(s: System, cpu: nat)
    requires Inv(s) && 1 <= cpu < |s.aps| && s.aps[cpu] != Off && s.aps[cpu] != InUser
    ensures Inv(ApStep(s, cpu))
  {
    var s' := ApStep(s, cpu);
    assert cpu > Current(s) ==> Untouched(s, cpu);
    assert cpu < Current(s) ==> Done(s, cpu);
    forall i: nat | 1 <= i < Current(s) ensures Done(s', i) {
      assert Done(s, i);
    }
    forall i: nat | Current(s) < i < |s.aps| ensures Untouched(s', i) {
      assert Untouched(s, i);
    }
  }

  /** Every step of the boot CPU or of another processor. */
  lemma NextInv(e: Event, s: System)
    requires Inv(s) && Enabled(e, s)
    ensures Inv(Next(e, s)) && |Next(e, s).aps| == |s.aps|
  {
    hide Inv;
    match e
    case Boot => BootInv(s);
    case Ap(cpu) => ApInv(s, cpu);
  }

  ghost predicate Legal(events: seq<Event>, s: System)
    requires |s.starts| == |s.aps|
  {
    events == [] || (Enabled(events[0], s) && Legal(events[1..], Next(events[0], s)))
  }

  ghost function Run(events: seq<Event>, s: System): (s': System)
    requires |s.starts| == |s.aps| && Legal(events, s)
    ensures |s'.starts| == |s'.aps|
  {
    if events == [] then s else Run(events[1..], Next(events[0], s))
  }

  lemma {:induction false} RunInv(events: seq<Event>, s: System)
    requires Inv(s) && Legal(events, s)
    ensures Inv(Run(events, s)) && |Run(events, s).aps| == |s.aps|
  {
    hide Next, Enabled, Done, Untouched;
    if events != [] {
      NextInv(events[0], s);
      RunInv(events[1..], Next(events[0], s));
    }
  }

  lemma InitialInv(n: nat)
    requires n > 0
    ensures Inv(Initial(n))
  {
  }

  /** In every interleaving: at most one application processor is between its
      start and its acknowledgement; each is started at most once and takes the
      is_ap path; none calls user_entry before it is set and before its own initialization; and the
      boot CPU enters only after all others have initialized and acknowledged. */
  lemma BringupSafe(n: nat, events: seq<Event>)
    requires n > 0 && Legal(events, Initial(n))
    ensures var s := Run(events, Initial(n));
      && n == |s.aps| == |s.starts|
      && (forall i: nat, j: nat :: 1 <= i < |s.aps| && 1 <= j < |s.aps| && Busy(s.aps[i]) && Busy(s.aps[j]) ==> i == j)
      && (forall i: nat :: 1 <= i < |s.aps| ==> s.aps[i] != BootPath && s.starts[i] <= 1)
      && (forall i: nat :: 1 <= i < |s.aps| && (s.aps[i] == Calling || s.aps[i] == InUser) ==>
        i in s.inited && s.entrySet)
      && (s.boot == BootEnters ==> forall i: nat :: 1 <= i < |s.aps| ==> Done(s, i))
  {
    InitialInv(n);
    RunInv(events, Initial(n));
    var s := Run(events, Initial(n));
    assert forall i: nat :: 1 <= i < Current(s) ==> Done(s, i);
    assert forall i: nat :: Current(s) < i < |s.aps| ==> Untouched(s, i);
    forall i: nat | 1 <= i < |s.aps| && i != Current(s)
      ensures !Busy(s.aps[i]) && s.starts[i] <= 1 && (s.aps[i] != Off ==> i in s.inited && s.entrySet)
    {
      assert Done(s, i) || Untouched(s, i);
      assert i < Current(s) || Untouched(s, i);
    }
  }

  /** The acknowledgement of one processor is never taken for another's. */
  lemma AcknowledgedInTurn(n: nat, events: seq<Event>)
    requires n > 0 && Legal(events, Initial(n))
    ensures var s := Run(events, Initial(n));
      s.ready == 1 ==> s.boot.Spin? && s.boot.cpu < |s.aps| == |s.starts| && Done(s, s.boot.cpu)
  {
    InitialInv(n);
    RunInv(events, Initial(n));
  }

  // ---- progress ----

  /** The boot CPU has entered, and every other processor is in user_entry. */
  ghost predicate AllIn(s: System) {
    s.boot == BootEnters && forall i: nat :: 1 <= i < |s.aps| ==> s.aps[i] == InUser
  }

  function ApRank(p: ApPc): nat {
    match p
    case Off => 5
    case Started => 4
    case Initializing => 3
    case Acknowledging => 2
    case Calling => 1
    case _ => 0
  }

  function ApsRank(aps: seq<ApPc>): nat {
    if aps == [] then 0 else ApsRank(aps[..|aps| - 1]) + ApRank(aps[|aps| - 1])
  }

  function BootRank(s: System): int {
    match s.boot
    case SetUp => 3 * |s.aps| - 1
    case Loop(cpu) => 3 * (|s.aps| - cpu) + 1
    case Start(cpu) => 3 * (|s.aps| - cpu)
    case Spin(cpu) => 3 * (|s.aps| - cpu) - 1
    case BootEnters => 0
  }

  /** An upper bound on the steps that are left, polls of ap_ready apart. */
  function Rank(s: System): int { BootRank(s) + ApsRank(s.aps) }

  lemma {:induction false} ApMoves(aps: seq<ApPc>, i: nat, p: ApPc)
    requires i < |aps|
    ensures ApsRank(aps[i := p]) == ApsRank(aps) - ApRank(aps[i]) + ApRank(p)
  {
    var n := |aps| - 1;
    if i < n {
      ApMoves(aps[..n], i, p);
      assert aps[i := p][..n] == aps[..n][i := p];
    } else {
      assert aps[i := p][..n] == aps[..n];
    }
  }

  lemma BootRankBound(s: System)
    requires Inv(s)
    ensures BootRank(s) >= 0
  {
  }

  /** Every step lowers the rank, or is a poll that finds ap_ready still 0. */
  lemma StepLowers(e: Event, s: System)
    requires Inv(s) && Enabled(e, s)
    ensures Next(e, s) == s || 0 <= Rank(Next(e, s)) < Rank(s)
  {
    hide Done, ApsRank;
    BootRankBound(Next(e, s)) by {
      NextInv(e, s);
    }
    if e.Ap? {
      ApMoves(s.aps, e.cpu, ApStep(s, e.cpu).aps[e.cpu]);
    } else if s.boot.Start? {
      ApMoves(s.aps, s.boot.cpu, Started);
    }
  }

  /** Nothing blocks: unless all are in, some processor has a step to take. */
  lemma CanMove(s: System) returns (e: Event)
    requires Inv(s) && !AllIn(s)
    ensures Enabled(e, s) && Next(e, s) != s
  {
    if s.boot == BootEnters {
      var i: nat :| 1 <= i < |s.aps| && s.aps[i] != InUser;
      assert Done(s, i);
      e := Ap(i);
    } else if s.boot.Spin? && s.ready == 0 {
      e := Ap(s.boot.cpu);
    } else {
      e := Boot;
    }
  }

  lemma {:induction false} CanFinish(s: System) returns (events: seq<Event>)
    requires Inv(s)
    ensures Legal(events, s) && AllIn(Run(events, s)) && |events| <= Rank(s)
    decreases Rank(s)
  {
    hide Enabled, Next, Done, Untouched, BootRank, ApsRank;
    BootRankBound(s);
    if AllIn(s) {
      events := [];
    } else {
      var e := CanMove(s);
      NextInv(e, s);
      StepLowers(e, s);
      var rest := CanFinish(Next(e, s));
      events := [e] + rest;
      assert events[1..] == rest;
    }
  }

  /** How many steps of a run are not polls that find ap_ready still 0. */
  ghost function Moves(events: seq<Event>, s: System): nat
    requires |s.starts| == |s.aps| && Legal(events, s)
  {
    if events == [] then 0
    else (if Next(events[0], s) == s then 0 else 1) + Moves(events[1..], Next(events[0], s))
  }

  lemma {:induction false} MovesBound(events: seq<Event>, s: System)
    requires Inv(s) && Legal(events, s)
    ensures Moves(events, s) <= Rank(s) - Rank(Run(events, s))
  {
    hide Enabled, Next, Rank, Done, Untouched;
    if events != [] {
      NextInv(events[0], s);
      StepLowers(events[0], s);
      MovesBound(events[1..], Next(events[0], s));
    }
  }

  lemma {:induction false} OffRank(aps: seq<ApPc>)
    requires forall i :: 0 <= i < |aps| ==> aps[i] == Off
    ensures ApsRank(aps) == 5 * |aps|
  {
    if aps != [] {
      OffRank(aps[..|aps| - 1]);
    }
  }

  /** From every state of every run, all processors can still get to user_entry;
      and a run of n processors has fewer than 8 * n steps besides polls. */
  lemma BringupEnters(n: nat, events: seq<Event>) returns (more: seq<Event>)
    requires n > 0 && Legal(events, Initial(n))
    ensures Legal(more, Run(events, Initial(n)))
    ensures AllIn(Run(more, Run(events, Initial(n))))
    ensures Moves(events, Initial(n)) + |more| < 8 * n
  {
    InitialInv(n);
    RunInv(events, Initial(n));
    MovesBound(events, Initial(n));
    OffRank(Initial(n).aps);
    more := CanFinish(Run(events, Initial(n)));
  }
}
