/** Trap entry and return on 32-bit x86 (trap32.S, cte.c): pushes, pops and
    moves on registers and stacks of 32-bit words. */
module Trap32 {
  /** Word memory; accesses are aligned with each other. */
  type Mem = map<int, int>

  function R(m: Mem, a: int): int { if a in m then m[a] else 0 }

  function Put(m: Mem, a: int, v: int): (m': Mem)
    ensures forall x :: R(m', x) == if x == a then v else R(m, x)
  {
    m[a := v]
  }

  const KCODE := 8
  const KDATA := 16
  const UCODE := 0x1b
  const UDATA := 0x23

  datatype Regs = Regs(eax: int, ebx: int, ecx: int, edx: int, esi: int, edi: int, ebp: int,
                       esp: int, eip: int, cs: int, eflags: int, ds: int, es: int, ss: int)

  /** struct Context, in memory order, one word each. */
  datatype Context = Context(cr3: int, ds: int, eax: int, ebx: int, ecx: int, edx: int, esp0: int,
                             esi: int, edi: int, ebp: int, eip: int, cs: int, eflags: int, esp: int, ss3: int)

  const CONTEXT_SIZE := 60

  predicate Holds(m: Mem, c: int, x: Context) {
    && R(m, c) == x.cr3 && R(m, c + 4) == x.ds && R(m, c + 8) == x.eax && R(m, c + 12) == x.ebx
    && R(m, c + 16) == x.ecx && R(m, c + 20) == x.edx && R(m, c + 24) == x.esp0 && R(m, c + 28) == x.esi
    && R(m, c + 32) == x.edi && R(m, c + 36) == x.ebp && R(m, c + 40) == x.eip && R(m, c + 44) == x.cs
    && R(m, c + 48) == x.eflags && R(m, c + 52) == x.esp && R(m, c + 56) == x.ss3
  }

  /** Memory is the same outside [lo, hi). */
  ghost predicate Only(m: Mem, m': Mem, lo: int, hi: int) {
    forall a :: !(lo <= a < hi) ==> R(m', a) == R(m, a)
  }

  predicate User(cs: int) { cs % 4 == 3 }

  /** `movw %ds, %ax` leaves the upper half of eax. */
  function WithLow(eax: int, ds: int): int { eax / 0x1_0000 * 0x1_0000 + ds }

  function LowHalf(x: int): int { x % 0x1_0000 }

  /** What a trap saves. */
  function Snapshot(r: Regs, cr3: int, esp0: int): Context {
    Context(cr3, WithLow(r.eax, r.ds), r.eax, r.ebx, r.ecx, r.edx, esp0, r.esi, r.edi, r.ebp,
            r.eip, r.cs, r.eflags, r.esp, UDATA)
  }

  /** What a return restores. */
  function Restored(x: Context): Regs {
    Regs(x.eax, x.ebx, x.ecx, x.edx, x.esi, x.edi, x.ebp, x.esp, x.eip, x.cs, x.eflags, LowHalf(x.ds),
         LowHalf(x.ds), if x.cs == KCODE then KDATA else x.ss3)
  }

  /** Restoring a snapshot gives back every register of the interrupted code but
      es, which is not saved and becomes ds. */
  lemma RestoresSnapshot(r: Regs, cr3: int, esp0: int)
    requires 0 <= r.ds < 0x1_0000
    requires r.ss == if r.cs == KCODE then KDATA else UDATA
    ensures Restored(Snapshot(r, cr3, esp0)) == r.(es := r.ds)
  {
    var q := r.eax / 0x1_0000;
    assert (q * 0x1_0000 + r.ds) % 0x1_0000 == r.ds;
  }

  /** The address of the trap frame. */
  function FrameAt(r: Regs, esp0: int): int { if User(r.cs) then esp0 - 88 else r.esp - 80 }

  function FrameTop(r: Regs, esp0: int): int { if User(r.cs) then esp0 else r.esp }

  // ---- the kernel return's frame move ----

  /** The six word moves of .kernel_iret, from the top down. */
  function Moved(m: Mem, p: int, e: int): Mem {
    var m5 := Put(m, e - 4, R(m, p + 20));
    var m4 := Put(m5, e - 8, R(m5, p + 16));
    var m3 := Put(m4, e - 12, R(m4, p + 12));
    var m2 := Put(m3, e - 16, R(m3, p + 8));
    var m1 := Put(m2, e - 20, R(m2, p + 4));
    Put(m1, e - 24, R(m1, p))
  }

  /** All six words arrive. */
  predicate Arrive(m: Mem, m': Mem, p: int, e: int) {
    && R(m', e - 24) == R(m, p) && R(m', e - 20) == R(m, p + 4) && R(m', e - 16) == R(m, p + 8)
    && R(m', e - 12) == R(m, p + 12) && R(m', e - 8) == R(m, p + 16) && R(m', e - 4) == R(m, p + 20)
  }

  /** The destination does not start inside the lower part of the source. */
  predicate MoveOk(p: int, e: int) { !(-24 < e - 24 - p < 0) }

  lemma MoveArrives(m: Mem, p: int, e: int)
    requires (e - p) % 4 == 0 && MoveOk(p, e)
    ensures Arrive(m, Moved(m, p, e), p, e) && Only(m, Moved(m, p, e), e - 24, e)
  {
  }

  /** Six different words below one another. */
  function Ladder(p: int): Mem {
    map[p := 1, p + 4 := 2, p + 8 := 3, p + 12 := 4, p + 16 := 5, p + 20 := 6]
  }

  lemma MoveFails(p: int, e: int)
    requires (e - p) % 4 == 0 && !MoveOk(p, e)
    ensures !Arrive(Ladder(p), Moved(Ladder(p), p, e), p, e)
  {
    hide Put;
    var d := (e - 24 - p) / 4;
    assert e - 24 - p == 4 * d && -5 <= d <= -1;
    LadderFails(p, d);
  }

  lemma LadderFails(p: int, d: int)
    requires -5 <= d <= -1
    ensures !Arrive(Ladder(p), Moved(Ladder(p), p, p + 24 + 4 * d), p, p + 24 + 4 * d)
  {
  }

  /** The move is right for every frame content exactly under this condition. */
  lemma MoveExact(p: int, e: int)
    requires (e - p) % 4 == 0
    ensures MoveOk(p, e) <==> forall m: Mem :: Arrive(m, Moved(m, p, e), p, e)
  {
    if MoveOk(p, e) {
      forall m: Mem ensures Arrive(m, Moved(m, p, e), p, e) {
        MoveArrives(m, p, e);
      }
    } else {
      MoveFails(p, e);
    }
  }

  // ---- the machine ----

  class Machine {
    var r: Regs
    var m: Mem
    var cr3: int
    var esp0: int

    constructor (regs: Regs, mem: Mem, cr3': int, esp0': int)
      ensures r == regs && m == mem && cr3 == cr3' && esp0 == esp0'
    {
      r, m, cr3, esp0 := regs, mem, cr3', esp0';
    }

    method Push(v: int)
      modifies this`r, this`m
      ensures r == old(r).(esp := old(r.esp) - 4) && m == Put(old(m), old(r.esp) - 4, v)
    {
      r := r.(esp := r.esp - 4);
      m := Put(m, r.esp, v);
    }

    method Pop() returns (v: int)
      modifies this`r
      ensures r == old(r).(esp := old(r.esp) + 4) && v == R(m, old(r.esp))
    {
      v := R(m, r.esp);
      r := r.(esp := r.esp + 4);
    }

    /** What the processor and the __am_irq stub push. */
    method Interrupt(irq: int, errcode: int)
      modifies this`r, this`m
      ensures r == old(r).(esp := FrameAt(old(r), esp0) + 60, cs := KCODE, ss := if User(old(r.cs)) then KDATA
        else old(r.ss))
      ensures Only(old(m), m, FrameAt(old(r), esp0) + 60, FrameTop(old(r), esp0))
      ensures var c := FrameAt(old(r), esp0);
        && R(m, c + 60) == irq && R(m, c + 64) == errcode
        && R(m, c + 68) == old(r.eip) && R(m, c + 72) == old(r.cs) && R(m, c + 76) == old(r.eflags)
      ensures User(old(r.cs)) ==> R(m, FrameAt(old(r), esp0) + 80) == old(r.esp)
    {
      var was := r;
      if User(r.cs) {
        r := r.(esp := esp0, ss := KDATA);
        Push(was.ss);
        Push(was.esp);
      }
      r := r.(cs := KCODE);
      Push(was.eflags);
      Push(was.cs);
      Push(was.eip);
      Push(errcode);
      Push(irq);
    }

    /** The pushes at `trap`; eip, cs, eflags, esp and ss3 are left for
        __am_irq_handle. */
    method PushContext()
      modifies this`r, this`m
      ensures r.esp == old(r.esp) - 60 && r.cs == old(r.cs) && r.ds == KDATA && r.es == KDATA && r.ss == KDATA
      ensures var c, w := r.esp, old(r);
        && R(m, c + 4) == WithLow(w.eax, w.ds) && R(m, c + 8) == w.eax && R(m, c + 12) == w.ebx && R(m, c + 16) == w.ecx
        && R(m, c + 20) == w.edx && R(m, c + 28) == w.esi && R(m, c + 32) == w.edi && R(m, c + 36) == w.ebp
      ensures Only(old(m), m, r.esp, old(r.esp) - 20)
    {
      r := r.(esp := r.esp - 20);
      Push(r.ebp);
      Push(r.edi);
      Push(r.esi);
      Push(0);
      Push(r.edx);
      Push(r.ecx);
      Push(r.ebx);
      Push(r.eax);
      r := r.(eax := WithLow(r.eax, r.ds));
      Push(r.eax);
      Push(0);
      r := r.(eax := WithLow(r.eax, KDATA));
      r := r.(ds := KDATA, es := KDATA, ss := KDATA);
    }

    /** The fields that __am_irq_handle fills in. */
    method SaveRest(tf: int)
      modifies this`m
      ensures R(m, tf) == cr3 && R(m, tf + 24) == esp0 && R(m, tf + 40) == old(R(m, tf + 68))
      ensures R(m, tf + 44) == old(R(m, tf + 72)) && R(m, tf + 48) == old(R(m, tf + 76)) && R(m, tf + 56) == UDATA
      ensures R(m, tf + 52) == if User(old(R(m, tf + 72))) then old(R(m, tf + 80)) else tf + 80
      ensures forall a :: a !in {tf, tf + 24, tf + 40, tf + 44, tf + 48, tf + 52, tf + 56} ==> R(m, a) == old(R(m, a))
    {
      m := Put(m, tf + 40, R(m, tf + 68));
      m := Put(m, tf + 44, R(m, tf + 72));
      m := Put(m, tf + 48, R(m, tf + 76));
      m := Put(m, tf + 24, esp0);
      m := Put(m, tf + 56, UDATA);
      m := Put(m, tf + 52, if User(R(m, tf + 72)) then R(m, tf + 80) else tf + 80);
      m := Put(m, tf, cr3);
    }

    /** A trap leaves the interrupted registers in a Context on the kernel stack,
        with the number of the trap and its error code above it, and writes
        nothing outside its frame; the handler starts with the kernel's segments. */
    method Trap(irq: int, errcode: int) returns (c: int)
      modifies this`r, this`m
      ensures c == FrameAt(old(r), esp0) && Holds(m, c, Snapshot(old(r), cr3, esp0))
      ensures R(m, c + 60) == irq && R(m, c + 64) == errcode
      ensures r.cs == KCODE && r.ds == KDATA && r.es == KDATA && r.ss == KDATA
      ensures Only(old(m), m, c, FrameTop(old(r), esp0))
    {
      hide Put, WithLow;
      Interrupt(irq, errcode);
      PushContext();
      c := r.esp;
      SaveRest(c);
    }

    /** .kernel_iret: the frame is moved below the new esp. */
    method KernelIret(ghost x: Context)
      requires Holds(m, r.esp - 8, x) && x.cs == KCODE && (x.esp - r.esp) % 4 == 0 && MoveOk(r.esp + 20, x.esp)
      modifies this`r, this`m
      ensures r == Restored(x).(ds := old(r.ds), es := old(r.es), ss := old(r.ss)) && Only(old(m), m, x.esp - 24, x.esp)
    {
      hide Put, Moved, Only, LowHalf;
      ghost var p, was := r.esp + 20, m;
      PopFour();
      r := r.(esp := r.esp + 4);
      r := r.(ebp := r.esp);
      r := r.(edi := R(m, r.ebp + 24));
      MoveArrives(m, p, x.esp);
      MoveFrame();
      assert Arrive(was, m, p, x.esp);
      r := r.(esp := r.edi - 24);
      PopThree();
      IretKernel();
    }

    /** popl %eax to popl %edx. */
    method PopFour()
      modifies this`r
      ensures var e := old(r.esp);
        r == old(r).(eax := R(m, e), ebx := R(m, e + 4), ecx := R(m, e + 8), edx := R(m, e + 12), esp := e + 16)
    {
      var v := Pop();
      r := r.(eax := v);
      v := Pop();
      r := r.(ebx := v);
      v := Pop();
      r := r.(ecx := v);
      v := Pop();
      r := r.(edx := v);
    }

    /** popl %esi to popl %ebp. */
    method PopThree()
      modifies this`r
      ensures var e := old(r.esp); r == old(r).(esi := R(m, e), edi := R(m, e + 4), ebp := R(m, e + 8), esp := e + 12)
    {
      var v := Pop();
      r := r.(esi := v);
      v := Pop();
      r := r.(edi := v);
      v := Pop();
      r := r.(ebp := v);
    }

    /** Six loads into esi and stores below edi. */
    method MoveFrame()
      modifies this`r, this`m
      ensures r == old(r).(esi := r.esi) && m == Moved(old(m), r.ebp, r.edi)
    {
      hide Put;
      r := r.(esi := R(m, r.ebp + 20));
      m := Put(m, r.edi - 4, r.esi);
      r := r.(esi := R(m, r.ebp + 16));
      m := Put(m, r.edi - 8, r.esi);
      r := r.(esi := R(m, r.ebp + 12));
      m := Put(m, r.edi - 12, r.esi);
      r := r.(esi := R(m, r.ebp + 8));
      m := Put(m, r.edi - 16, r.esi);
      r := r.(esi := R(m, r.ebp + 4));
      m := Put(m, r.edi - 20, r.esi);
      r := r.(esi := R(m, r.ebp));
      m := Put(m, r.edi - 24, r.esi);
    }

    /** iret to ring 0 pops three words. */
    method IretKernel()
      modifies this`r
      ensures r == old(r).(esp := old(r.esp) + 12, eip := R(m, old(r.esp)), cs := R(m, old(r.esp) + 4),
        eflags := R(m, old(r.esp) + 8))
    {
      var e := r.esp;
      r := r.(eip := R(m, e), cs := R(m, e + 4), eflags := R(m, e + 8), esp := e + 12);
    }

    /** .user_iret: iret to ring 3 pops esp and ss too. */
    method UserIret(ghost x: Context)
      requires Holds(m, r.esp - 8, x)
      modifies this`r
      ensures r == Restored(x).(ds := old(r.ds), es := old(r.es), ss := x.ss3)
    {
      PopFour();
      r := r.(esp := r.esp + 4);
      PopThree();
      var e := r.esp;
      r := r.(eip := R(m, e), cs := R(m, e + 4), eflags := R(m, e + 8), esp := R(m, e + 12), ss := R(m, e + 16));
    }

    /** __am_iret: the context at c becomes the registers. The kernel path
        writes only the six words below the new stack pointer. */
    method Iret(c: int, ghost x: Context)
      requires Holds(m, c, x) && r.ss == KDATA && 0 <= x.cs < 0x1_0000
      requires x.cs == KCODE ==> (x.esp - c) % 4 == 0 && MoveOk(c + 28, x.esp)
      modifies this`r, this`m
      ensures r == Restored(x)
      ensures if x.cs == KCODE then Only(old(m), m, x.esp - 24, x.esp) else m == old(m)
    {
      hide Put;
      r := r.(esp := c + 4);
      var v := Pop();
      r := r.(eax := v);
      r := r.(ds := LowHalf(r.eax), es := LowHalf(r.eax));
      if LowHalf(R(m, r.esp + 36)) == KCODE {
        KernelIret(x);
      } else {
        UserIret(x);
      }
    }

    /** The end of __am_irq_handle: address space and kernel stack of the
        context, unless it has none. */
    method Resume(c: int, ghost x: Context)
      requires Holds(m, c, x) && r.ss == KDATA && 0 <= x.cs < 0x1_0000
      requires x.cs == KCODE ==> (x.esp - c) % 4 == 0 && MoveOk(c + 28, x.esp)
      modifies this
      ensures r == Restored(x)
      ensures if x.cs == KCODE then Only(old(m), m, x.esp - 24, x.esp) else m == old(m)
      ensures if x.cr3 != 0 then cr3 == x.cr3 && esp0 == x.esp0 else cr3 == old(cr3) && esp0 == old(esp0)
    {
      if R(m, c) != 0 {
        cr3 := R(m, c);
        esp0 := R(m, c + 24);
      }
      Iret(c, x);
    }
  }
}
