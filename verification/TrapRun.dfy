/** Threads on disjoint kernel stacks, switched by traps: each gets back the
    registers it was interrupted with, whatever the handler chooses. */
module TrapRun {
  import opened Trap32

  /** The kernel stack of a thread. */
  datatype Stack = Stack(lo: int, hi: int)

  datatype Event =
    | Compute(regs: Regs, writes: seq<(int, int)>)            // the running thread computes
    | Switch(irq: int, errcode: int, next: nat, writes: seq<(int, int)>)  // a trap; the handler writes and chooses

  /** The address space and the kernel stack pointer that a thread runs with. */
  datatype Mm = Mm(cr3: int, esp0: int)

  /** The specification: every thread has registers and an Mm of its own, but a
      thread whose cr3 is 0 gets that of the thread it interrupts. */
  datatype Model = Model(cur: nat, regs: seq<Regs>, mms: seq<Mm>, handled: seq<Seen>)

  /** What a handler finds in its trap frame. */
  datatype Seen = Seen(irq: int, errcode: int)

  ghost function Inherit(own: Mm, current: Mm): Mm { if own.cr3 != 0 then own else current }

  ghost function Step(a: Model, e: Event): Model
    requires a.cur < |a.regs| == |a.mms|
  {
    match e
    case Compute(regs, _) => a.(regs := a.regs[a.cur := regs])
    case Switch(irq, errcode, next, _) =>
      if next < |a.regs| then
        a.(cur := next, mms := a.mms[next := Inherit(a.mms[next], a.mms[a.cur])],
          handled := a.handled + [Seen(irq, errcode)])
      else a
  }

  ghost function Steps(a: Model, events: seq<Event>): (b: Model)
    requires a.cur < |a.regs| == |a.mms|
    ensures b.cur < |b.regs| == |a.regs| && |b.mms| == |a.mms|
    decreases |events|
  {
    if events == [] then a else Step(Steps(a, events[..|events| - 1]), events[|events| - 1])
  }

  /** A thread that has an address space keeps it, and its kernel stack. */
  lemma {:induction false} SpaceStays(a: Model, events: seq<Event>, u: nat)
    requires a.cur < |a.regs| == |a.mms| && u < |a.mms| && a.mms[u].cr3 != 0
    ensures Steps(a, events).mms[u] == a.mms[u]
    decreases |events|
  {
    if events != [] {
      SpaceStays(a, events[..|events| - 1], u);
    }
  }

  // ---- memory ----

  function Apply(m: Mem, writes: seq<(int, int)>): Mem
    decreases |writes|
  {
    if writes == [] then m else Apply(Put(m, writes[0].0, writes[0].1), writes[1..])
  }

  /** No write hits the context at c. */
  predicate Spares(writes: seq<(int, int)>, c: int) {
    forall k :: 0 <= k < |writes| ==> !(c <= writes[k].0 < c + CONTEXT_SIZE)
  }

  lemma {:induction false} ApplySpares(m: Mem, writes: seq<(int, int)>, c: int, x: Context)
    requires Holds(m, c, x) && Spares(writes, c)
    ensures Holds(Apply(m, writes), c, x)
    decreases |writes|
  {
    hide Holds, Put;
    if writes != [] {
      assert !(c <= writes[0].0 < c + CONTEXT_SIZE);
      HoldsPut(m, writes[0].0, writes[0].1, c, x);
      ApplySpares(Put(m, writes[0].0, writes[0].1), writes[1..], c, x);
    }
  }

  lemma HoldsPut(m: Mem, a: int, v: int, c: int, x: Context)
    requires Holds(m, c, x) && !(c <= a < c + CONTEXT_SIZE)
    ensures Holds(Put(m, a, v), c, x)
  {
  }

  lemma HoldsOnly(m: Mem, m': Mem, lo: int, hi: int, c: int, x: Context)
    requires Holds(m, c, x) && Only(m, m', lo, hi) && (c + CONTEXT_SIZE <= lo || hi <= c)
    ensures Holds(m', c, x)
  {
  }

  // ---- well-placed contexts ----

  /** Ring 0 code runs on its kernel stack, ring 3 code leaves it empty. */
  predicate Running(r: Regs, cr3: int, esp0: int, st: Stack) {
    && 0 <= r.ds < 0x1_0000 && r.es == r.ds && 0 <= r.cs < 0x1_0000
    && if r.cs == KCODE then r.ss == KDATA && st.lo <= r.esp <= st.hi
       else User(r.cs) && r.ss == UDATA && cr3 != 0 && esp0 == st.hi
  }

  /** A context on the stack of its thread that __am_iret can return to. */
  predicate Fits(st: Stack, c: int, x: Context) {
    && st.lo <= c && c + CONTEXT_SIZE <= st.hi && 0 <= x.cs < 0x1_0000
    && if x.cs == KCODE then (x.esp - c) % 4 == 0 && MoveOk(c + 28, x.esp) && st.lo + 24 <= x.esp <= st.hi
       else User(x.cs) && x.cr3 != 0 && x.esp0 == st.hi && x.ss3 == UDATA
  }

  lemma TrapFits(r: Regs, cr3: int, esp0: int, st: Stack)
    requires Running(r, cr3, esp0, st) && st.lo <= FrameAt(r, esp0)
    ensures Fits(st, FrameAt(r, esp0), Snapshot(r, cr3, esp0))
    ensures FrameTop(r, esp0) <= st.hi && Restored(Snapshot(r, cr3, esp0)) == r
  {
    RestoresSnapshot(r, cr3, esp0);
  }

  lemma ResumeRuns(st: Stack, c: int, x: Context, cr3: int, esp0: int)
    requires Fits(st, c, x)
    requires x.cr3 != 0 ==> cr3 == x.cr3 && esp0 == x.esp0
    ensures Running(Restored(x), cr3, esp0, st)
  {
  }

  /** kcontext: a new kernel thread at the top of its stack, whose frame overlaps
      the place it is moved to. */
  function KContext(top: int, start: int, entry: int, arg: int, flags: int): Context {
    Context(0, KDATA, arg, entry, 0, 0, 0, 0, 0, 0, start, KCODE, flags, top, 0)
  }

  /** The registers of a thread that kcontext made: arg and entry for
      __am_kcontext_start, and otherwise zeros. */
  function FreshRegs(top: int, start: int, entry: int, arg: int, flags: int): Regs {
    Regs(arg, entry, 0, 0, 0, 0, 0, top, start, KCODE, flags, KDATA, KDATA, KDATA)
  }

  lemma KContextStarts(st: Stack, start: int, entry: int, arg: int, flags: int)
    requires st.lo + CONTEXT_SIZE <= st.hi
    ensures var c, x := st.hi - CONTEXT_SIZE, KContext(st.hi, start, entry, arg, flags);
      && Fits(st, c, x) && x.esp - 24 < c + 52
      && Restored(x) == FreshRegs(st.hi, start, entry, arg, flags) && x.cr3 == 0 && x.esp0 == 0
  {
  }

  /** A zeroed context at the top of the stack. */
  method ZeroContext(cpu: Machine, st: Stack) returns (c: int)
    modifies cpu`m
    ensures c == st.hi - CONTEXT_SIZE && Holds(cpu.m, c, Context(0, 0, 0, 0, 0, 0, 0, 0, 0, 0, 0, 0, 0, 0, 0))
    ensures Only(old(cpu.m), cpu.m, c, st.hi)
  {
    hide Put;
    c := st.hi - CONTEXT_SIZE;
    for i := 0 to 15
      invariant forall k :: 0 <= k < i ==> R(cpu.m, c + 4 * k) == 0
      invariant Only(old(cpu.m), cpu.m, c, st.hi)
    {
      cpu.m := Put(cpu.m, c + 4 * i, 0);
    }
    Fifteen(cpu.m, c);
  }

  /** kcontext: seven fields of a zeroed context. */
  method MakeContextAt(cpu: Machine, st: Stack, start: int, entry: int, arg: int, flags: int) returns (c: int)
    modifies cpu`m
    ensures c == st.hi - CONTEXT_SIZE && Holds(cpu.m, c, KContext(st.hi, start, entry, arg, flags))
    ensures Only(old(cpu.m), cpu.m, c, st.hi)
  {
    hide Put;
    c := ZeroContext(cpu, st);
    cpu.m := Put(cpu.m, c + 4, KDATA);
    cpu.m := Put(cpu.m, c + 44, KCODE);
    cpu.m := Put(cpu.m, c + 40, start);
    cpu.m := Put(cpu.m, c + 48, flags);
    cpu.m := Put(cpu.m, c + 52, st.hi);
    cpu.m := Put(cpu.m, c + 8, arg);
    cpu.m := Put(cpu.m, c + 12, entry);
  }

  /** ucontext: a user program at entry with the address space ptr, whose stack
      ends with the user area. */
  function UContext(top: int, ptr: int, entry: int, areaEnd: int, flags: int): Context {
    Context(ptr, UDATA, 0, 0, 0, 0, top, 0, 0, 0, entry, UCODE, flags, areaEnd, UDATA)
  }

  /** ucontext: eight fields of a zeroed context. */
  method MakeUserContext(cpu: Machine, st: Stack, ptr: int, entry: int, areaEnd: int, flags: int) returns (c: int)
    modifies cpu`m
    ensures c == st.hi - CONTEXT_SIZE && Holds(cpu.m, c, UContext(st.hi, ptr, entry, areaEnd, flags))
    ensures Only(old(cpu.m), cpu.m, c, st.hi)
  {
    hide Put;
    c := ZeroContext(cpu, st);
    cpu.m := Put(cpu.m, c + 44, UCODE);
    cpu.m := Put(cpu.m, c + 4, UDATA);
    cpu.m := Put(cpu.m, c + 56, UDATA);
    cpu.m := Put(cpu.m, c + 40, entry);
    cpu.m := Put(cpu.m, c + 48, flags);
    cpu.m := Put(cpu.m, c + 52, areaEnd);
    cpu.m := Put(cpu.m, c + 24, st.hi);
    cpu.m := Put(cpu.m, c, ptr);
  }

  /** The first return to a user program: ring 3, in its own address space, with
      its next trap on its kernel stack; memory stays as it is. */
  method StartUser(cpu: Machine, st: Stack, ptr: int, entry: int, areaEnd: int, flags: int)
    requires ptr != 0 && cpu.r.ss == KDATA
    requires Holds(cpu.m, st.hi - CONTEXT_SIZE, UContext(st.hi, ptr, entry, areaEnd, flags))
    modifies cpu
    ensures cpu.r == Regs(0, 0, 0, 0, 0, 0, 0, areaEnd, entry, UCODE, flags, UDATA, UDATA, UDATA)
    ensures cpu.cr3 == ptr && cpu.esp0 == st.hi && cpu.m == old(cpu.m)
    ensures Running(cpu.r, cpu.cr3, cpu.esp0, st) && FrameTop(cpu.r, cpu.esp0) == st.hi
  {
    hide Holds, Only;
    ghost var x := UContext(st.hi, ptr, entry, areaEnd, flags);
    cpu.Resume(st.hi - CONTEXT_SIZE, x);
  }

  lemma Fifteen(m: Mem, c: int)
    requires forall k :: 0 <= k < 15 ==> R(m, c + 4 * k) == 0
    ensures Holds(m, c, Context(0, 0, 0, 0, 0, 0, 0, 0, 0, 0, 0, 0, 0, 0, 0))
  {
    hide R;
    assert R(m, c + 4 * 0) == 0 && R(m, c + 4 * 1) == 0 && R(m, c + 4 * 2) == 0 && R(m, c + 4 * 3) == 0;
    assert R(m, c + 4 * 4) == 0 && R(m, c + 4 * 5) == 0 && R(m, c + 4 * 6) == 0 && R(m, c + 4 * 7) == 0;
    assert R(m, c + 4 * 8) == 0 && R(m, c + 4 * 9) == 0 && R(m, c + 4 * 10) == 0 && R(m, c + 4 * 11) == 0;
    assert R(m, c + 4 * 12) == 0 && R(m, c + 4 * 13) == 0 && R(m, c + 4 * 14) == 0;
  }

  /** The first return to a new thread: it has its argument and its entry, and
      runs in whatever address space the processor was in. */
  method StartThread(cpu: Machine, st: Stack, start: int, entry: int, arg: int, flags: int)
    requires st.lo + CONTEXT_SIZE <= st.hi && cpu.r.ss == KDATA
    requires Holds(cpu.m, st.hi - CONTEXT_SIZE, KContext(st.hi, start, entry, arg, flags))
    modifies cpu
    ensures cpu.r == Regs(arg, entry, 0, 0, 0, 0, 0, st.hi, start, KCODE, flags, KDATA, KDATA, KDATA)
    ensures cpu.cr3 == old(cpu.cr3) && cpu.esp0 == old(cpu.esp0)
    ensures Only(old(cpu.m), cpu.m, st.hi - 24, st.hi)
  {
    hide Holds, Restored, Only;
    ghost var x := KContext(st.hi, start, entry, arg, flags);
    KContextStarts(st, start, entry, arg, flags);
    cpu.Resume(st.hi - CONTEXT_SIZE, x);
  }

  /** A thread that is not switched to stays as it is. */
  lemma {:induction false} Unscheduled(a: Model, events: seq<Event>, u: nat)
    requires a.cur < |a.regs| == |a.mms| && u < |a.mms| && u != a.cur
    requires forall k :: 0 <= k < |events| && events[k].Switch? ==> events[k].next != u
    ensures var b := Steps(a, events); b.cur != u && b.regs[u] == a.regs[u] && b.mms[u] == a.mms[u]
    decreases |events|
  {
    if events != [] {
      Unscheduled(a, events[..|events| - 1], u);
    }
  }

  /** Over every run: when a thread without an address space of its own is
      switched to for the first time, it has the registers it was made with, and
      the address space and kernel stack of the thread before it. */
  lemma NewThreadInherits(a: Model, events: seq<Event>, e: Event, u: nat)
    requires a.cur < |a.regs| == |a.mms| && u < |a.mms| && u != a.cur && a.mms[u].cr3 == 0
    requires forall k :: 0 <= k < |events| && events[k].Switch? ==> events[k].next != u
    requires e.Switch? && e.next == u
    ensures var b, b' := Steps(a, events), Steps(a, events + [e]);
      b'.cur == u && b'.regs[u] == a.regs[u] && b'.mms[u] == b.mms[b.cur]
  {
    hide Steps;
    Unscheduled(a, events, u);
    assert (events + [e])[..|events|] == events;
    StepsLast(a, events, e);
  }

  lemma StepsLast(a: Model, events: seq<Event>, e: Event)
    requires a.cur < |a.regs| == |a.mms|
    ensures Steps(a, events + [e]) == Step(Steps(a, events), e)
  {
    assert (events + [e])[..|events + [e]| - 1] == events;
  }

  predicate ContextAt(m: Mem, st: Stack, c: int, x: Context) {
    Holds(m, c, x) && Fits(st, c, x)
  }

  class Threads {
    const cpu: Machine
    const stacks: seq<Stack>
    var cur: nat
    var frames: seq<int>
    /** For each trap so far, what its handler was given. */
    var handled: seq<Seen>
    ghost var saved: seq<Context>

    ghost predicate Suspended(u: nat)
      requires u < |frames| == |saved| == |stacks|
      reads this, cpu
    {
      ContextAt(cpu.m, stacks[u], frames[u], saved[u])
    }

    predicate Apart(i: nat, j: nat)
      requires i < |stacks| && j < |stacks|
    {
      stacks[i].hi <= stacks[j].lo || stacks[j].hi <= stacks[i].lo
    }

    /** Disjoint stacks, and a resumable context for every thread but the
        running one. */
    ghost predicate Valid()
      reads this, cpu
    {
      && |frames| == |saved| == |stacks| && cur < |stacks|
      && (forall i: nat, j: nat :: i < j < |stacks| ==> Apart(i, j))
      && (forall u: nat :: u < |stacks| && u != cur ==> Suspended(u))
      && Running(cpu.r, cpu.cr3, cpu.esp0, stacks[cur])
    }

    ghost function RegsOf(u: nat): Regs
      requires u < |saved|
      reads this, cpu
    {
      if u == cur then cpu.r else Restored(saved[u])
    }

    ghost function MmOf(u: nat): Mm
      requires u < |saved|
      reads this, cpu
    {
      if u == cur then Mm(cpu.cr3, cpu.esp0) else Mm(saved[u].cr3, saved[u].esp0)
    }

    ghost function Abstract(): (a: Model)
      requires |saved| > 0
      reads this, cpu
    {
      Model(cur, seq(|saved|, u requires 0 <= u < |saved| reads this, cpu => RegsOf(u)),
        seq(|saved|, u requires 0 <= u < |saved| reads this, cpu => MmOf(u)), handled)
    }

    /** What kcontext left on a stack is a thread of the specification. */
    lemma KernelThread(u: nat, start: int, entry: int, arg: int, flags: int)
      requires Valid() && u < |saved| && u != cur && saved[u] == KContext(stacks[u].hi, start, entry, arg, flags)
      ensures Abstract().regs[u] == FreshRegs(stacks[u].hi, start, entry, arg, flags) && Abstract().mms[u] == Mm(0, 0)
    {
      hide Suspended, Running;
    }

    constructor (machine: Machine, areas: seq<Stack>, contexts: seq<int>, ghost held: seq<Context>)
      requires 0 < |areas| == |contexts| == |held|
      requires forall i, j :: 0 <= i < j < |areas| ==> areas[i].hi <= areas[j].lo || areas[j].hi <= areas[i].lo
      requires forall u :: 0 < u < |areas| ==> ContextAt(machine.m, areas[u], contexts[u], held[u])
      requires Running(machine.r, machine.cr3, machine.esp0, areas[0])
      ensures Valid() && cpu == machine && cur == 0 && handled == []
    {
      cpu, stacks, cur, frames, saved, handled := machine, areas, 0, contexts, held, [];
    }

    /** What the running thread, or the handler, may do: stay on its own stack,
        and leave the contexts of suspended threads alone. */
    predicate Permits(e: Event)
      requires |frames| == |stacks| && cur < |stacks|
      reads this, cpu
    {
      match e
      case Compute(regs, writes) =>
        && Running(regs, cpu.cr3, cpu.esp0, stacks[cur])
        && forall u: nat :: u < |frames| && u != cur ==> Spares(writes, frames[u])
      case Switch(_, _, next, writes) =>
        && next < |stacks| && stacks[cur].lo <= FrameAt(cpu.r, cpu.esp0)
        && Spares(writes, FrameAt(cpu.r, cpu.esp0))
        && forall u: nat :: u < |frames| && u != cur ==> Spares(writes, frames[u])
    }

    /** The contexts of the suspended threads, one by one. */
    lemma Contexts()
      requires Valid()
      ensures forall u: nat :: u < |stacks| && u != cur ==> ContextAt(cpu.m, stacks[u], frames[u], saved[u])
    {
      forall u: nat | u < |stacks| && u != cur ensures ContextAt(cpu.m, stacks[u], frames[u], saved[u]) {
        assert Suspended(u);
      }
    }

    /** No other stack overlaps the running thread's. */
    lemma StacksApart()
      requires cur < |stacks| && forall i: nat, j: nat :: i < j < |stacks| ==> Apart(i, j)
      ensures forall u: nat :: u < |stacks| && u != cur ==>
        stacks[u].hi <= stacks[cur].lo || stacks[cur].hi <= stacks[u].lo
    {
      forall u: nat | u < |stacks| && u != cur ensures stacks[u].hi <= stacks[cur].lo ||
        stacks[cur].hi <= stacks[u].lo {
        assert Apart(if u < cur then u else cur, if u < cur then cur else u);
      }
    }

    method DoCompute(regs: Regs, writes: seq<(int, int)>)
      requires Valid() && Permits(Compute(regs, writes))
      modifies cpu
      ensures Valid() && cpu.r == regs && cpu.cr3 == old(cpu.cr3) && cpu.esp0 == old(cpu.esp0)
    {
      ghost var was := cpu.m;
      Contexts();
      cpu.r := regs;
      cpu.m := Apply(cpu.m, writes);
      forall u: nat | u < |stacks| && u != cur ensures Suspended(u) {
        ApplySpares(was, writes, frames[u], saved[u]);
      }
    }

    lemma AllSuspended()
      requires |frames| == |saved| == |stacks|
      requires forall u: nat :: u < |stacks| ==> ContextAt(cpu.m, stacks[u], frames[u], saved[u])
      ensures forall u: nat :: u < |stacks| ==> Suspended(u)
    {
    }

    /** What a permitted trap may rely on. */
    lemma TrapFacts(irq: int, errcode: int, writes: seq<(int, int)>)
      requires Valid() && Permits(Switch(irq, errcode, cur, writes))
      ensures |frames| == |saved| == |stacks| && cur < |stacks|
      ensures Fits(stacks[cur], FrameAt(cpu.r, cpu.esp0), Snapshot(cpu.r, cpu.cr3, cpu.esp0))
      ensures stacks[cur].lo <= FrameAt(cpu.r, cpu.esp0) && FrameTop(cpu.r, cpu.esp0) <= stacks[cur].hi
      ensures Restored(Snapshot(cpu.r, cpu.cr3, cpu.esp0)) == cpu.r
      ensures Spares(writes, FrameAt(cpu.r, cpu.esp0))
      ensures forall u: nat :: u < |frames| && u != cur ==> Spares(writes, frames[u])
      ensures forall u: nat :: u < |stacks| && u != cur ==> ContextAt(cpu.m, stacks[u], frames[u], saved[u])
      ensures forall u: nat :: u < |stacks| && u != cur ==>
        stacks[u].hi <= stacks[cur].lo || stacks[cur].hi <= stacks[u].lo
    {
      TrapFits(cpu.r, cpu.cr3, cpu.esp0, stacks[cur]);
      Contexts();
      StacksApart();
    }

    /** Trap entry and the handler: now every thread is suspended. */
    method Enter(irq: int, errcode: int, writes: seq<(int, int)>)
      requires Valid() && Permits(Switch(irq, errcode, cur, writes))
      modifies this`frames, this`saved, this`handled, cpu
      ensures |frames| == |saved| == |stacks| && forall u: nat :: u < |stacks| ==> Suspended(u)
      ensures cpu.r.cs == KCODE && cpu.r.ds == KDATA && cpu.r.es == KDATA && cpu.r.ss == KDATA
      ensures handled == old(handled) + [Seen(irq, errcode)]
      ensures cpu.cr3 == old(cpu.cr3) && cpu.esp0 == old(cpu.esp0)
      ensures saved == old(saved)[cur := Snapshot(old(cpu.r), cpu.cr3, cpu.esp0)]
      ensures Restored(saved[cur]) == old(cpu.r)
    {
      hide Valid, Permits, Suspended, Running, Holds, Fits, Only, ContextAt, Spares, Apply, Restored, Snapshot,
        FrameAt, FrameTop;
      TrapFacts(irq, errcode, writes);
      ghost var was, x := cpu.m, Snapshot(cpu.r, cpu.cr3, cpu.esp0);
      ghost var lo, hi := FrameAt(cpu.r, cpu.esp0), FrameTop(cpu.r, cpu.esp0);
      var c := cpu.Trap(irq, errcode);
      handled := handled + [Seen(R(cpu.m, c + 60), R(cpu.m, c + 64))];
      ghost var mid := cpu.m;
      frames := frames[cur := c];
      saved := saved[cur := x];
      cpu.m := Apply(cpu.m, writes);
      MakeContext(mid, stacks[cur], c, x);
      AllSpared(was, mid, writes, lo, hi, stacks, cur, frames, saved);
      AllSuspended();
    }

    /** The return to the chosen thread. */
    method Leave(next: nat)
      requires |frames| == |saved| == |stacks| && next < |stacks| && cpu.r.ss == KDATA
      requires forall u: nat :: u < |stacks| ==> Suspended(u)
      requires forall i: nat, j: nat :: i < j < |stacks| ==> Apart(i, j)
      modifies this`cur, cpu
      ensures Valid() && cur == next && cpu.r == Restored(saved[next])
      ensures Mm(cpu.cr3, cpu.esp0) == Inherit(Mm(saved[next].cr3, saved[next].esp0), old(Mm(cpu.cr3, cpu.esp0)))
    {
      ghost var was, x := cpu.m, saved[next];
      assert Suspended(next);
      forall u: nat | u < |stacks| ensures ContextAt(cpu.m, stacks[u], frames[u], saved[u]) {
        assert Suspended(u);
      }
      cur := next;
      StacksApart();
      ResumeFits(stacks[next], frames[next], x);
      hide Restored;
      cpu.Resume(frames[next], x);
      ResumeRuns(stacks[next], frames[next], x, cpu.cr3, cpu.esp0);
      forall u: nat | u < |stacks| && u != cur ensures Suspended(u) {
        ContextKept(was, cpu.m, if x.cs == KCODE then x.esp - 24 else stacks[next].hi,
          if x.cs == KCODE then x.esp else stacks[next].hi, stacks[next], stacks[u], frames[u], saved[u]);
      }
    }

    /** Trap, handler and return: the chosen thread has its registers back. */
    method DoSwitch(irq: int, errcode: int, next: nat, writes: seq<(int, int)>)
      requires Valid() && Permits(Switch(irq, errcode, next, writes))
      modifies this, cpu
      ensures Valid() && cur == next && cpu.r == old(RegsOf(next))
      ensures Mm(cpu.cr3, cpu.esp0) == Inherit(old(MmOf(next)), old(MmOf(cur)))
      ensures handled == old(handled) + [Seen(irq, errcode)]
      ensures saved == old(saved)[old(cur) := Snapshot(old(cpu.r), old(cpu.cr3), old(cpu.esp0))]
      ensures Restored(saved[old(cur)]) == old(cpu.r) && Mm(saved[old(cur)].cr3, saved[old(cur)].esp0) == old(MmOf(cur))
    {
      hide Suspended, Running, Snapshot, Restored;
      SnapshotMm(cpu.r, cpu.cr3, cpu.esp0);
      Enter(irq, errcode, writes);
      Leave(next);
    }

    /** One event, as the specification says. */
    method Perform(e: Event)
      requires Valid() && Permits(e)
      modifies this, cpu
      ensures Valid() && Abstract() == Step(old(Abstract()), e)
    {
      hide Suspended, Running, Snapshot, Restored;
      match e {
        case Compute(regs, writes) => DoCompute(regs, writes);
        case Switch(irq, errcode, next, writes) => DoSwitch(irq, errcode, next, writes);
      }
    }

    /** Any sequence of events, up to the first one that breaks the rules. */
    method Run(events: seq<Event>) returns (done: nat)
      requires Valid()
      modifies this, cpu
      ensures Valid() && done <= |events|
      ensures Abstract() == Steps(old(Abstract()), events[..done])
      ensures done < |events| ==> !Permits(events[done])
    {
      hide Suspended, Running, Step, Permits;
      done := 0;
      while done < |events| && Permits(events[done])
        invariant Valid() && done <= |events|
        invariant Abstract() == Steps(old(Abstract()), events[..done])
      {
        assert events[..done + 1][..done] == events[..done];
        Perform(events[done]);
        done := done + 1;
      }
    }
  }

  /** Changes within one stack leave the contexts on another alone. */
  lemma ContextKept(m: Mem, m': Mem, lo: int, hi: int, st: Stack, other: Stack, c: int, x: Context)
    requires ContextAt(m, other, c, x) && Only(m, m', lo, hi) && st.lo <= lo && hi <= st.hi
    requires st.hi <= other.lo || other.hi <= st.lo
    ensures ContextAt(m', other, c, x)
  {
    HoldsOnly(m, m', lo, hi, c, x);
  }

  lemma ContextSpared(m: Mem, writes: seq<(int, int)>, st: Stack, c: int, x: Context)
    requires ContextAt(m, st, c, x) && Spares(writes, c)
    ensures ContextAt(Apply(m, writes), st, c, x)
  {
    ApplySpares(m, writes, c, x);
  }

  lemma MakeContext(m: Mem, st: Stack, c: int, x: Context)
    requires Holds(m, c, x) && Fits(st, c, x)
    ensures ContextAt(m, st, c, x)
  {
  }

  /** After a trap and the handler's writes every context is in place. */
  lemma AllSpared(was: Mem, mid: Mem, writes: seq<(int, int)>, lo: int, hi: int, stacks: seq<Stack>, cur: nat,
                  frames: seq<int>, saved: seq<Context>)
    requires cur < |stacks| == |frames| == |saved| && Only(was, mid, lo, hi) && stacks[cur].lo <= lo &&
      hi <= stacks[cur].hi
    requires ContextAt(mid, stacks[cur], frames[cur], saved[cur])
    requires forall u: nat :: u < |stacks| && u != cur ==> ContextAt(was, stacks[u], frames[u], saved[u])
    requires forall u: nat :: u < |stacks| && u != cur ==>
      stacks[u].hi <= stacks[cur].lo || stacks[cur].hi <= stacks[u].lo
    requires forall u: nat :: u < |stacks| ==> Spares(writes, frames[u])
    ensures forall u: nat :: u < |stacks| ==> ContextAt(Apply(mid, writes), stacks[u], frames[u], saved[u])
  {
    hide ContextAt, Apply, Spares, Only;
    forall u: nat | u < |stacks| ensures ContextAt(Apply(mid, writes), stacks[u], frames[u], saved[u]) {
      if u != cur {
        ContextKept(was, mid, lo, hi, stacks[cur], stacks[u], frames[u], saved[u]);
      }
      ContextSpared(mid, writes, stacks[u], frames[u], saved[u]);
    }
  }

  lemma SnapshotMm(r: Regs, cr3: int, esp0: int)
    ensures var x := Snapshot(r, cr3, esp0); x.cr3 == cr3 && x.esp0 == esp0
  {
  }

  lemma ResumeFits(st: Stack, c: int, x: Context)
    requires Fits(st, c, x)
    ensures 0 <= x.cs < 0x1_0000
    ensures x.cs == KCODE ==> (x.esp - c) % 4 == 0 && MoveOk(c + 28, x.esp) && st.lo + 24 <= x.esp <= st.hi
  {
  }
}
