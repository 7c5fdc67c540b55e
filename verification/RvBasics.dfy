/** Running the small macros: addresses, bytes, sign bits, negation, subtraction. */
module RvBasics {
  import opened Bits
  import opened RvMachine
  import opened RvTables
  import opened RvMacros

  /** All registers but x1, x2 and x3 are unchanged. */
  ghost predicate OnlyRegs(r: Regs, r': Regs, x1: Reg, x2: Reg, x3: Reg) {
    forall x :: x != x1 && x != x2 && x != x3 ==> Rd(r', x) == Rd(r, x)
  }

  // ---- putting code together ----

  lemma Cat3(a: Code, b: Code, c: Code, s: State)
    ensures Exec(a + b + c, s) == Exec(c, Exec(b, Exec(a, s)))
  {
    hide Step;
    ExecAppend(a + b, c, s);
    ExecAppend(a, b, s);
  }

  lemma Cat4(a: Code, b: Code, c: Code, d: Code, s: State)
    ensures Exec(a + b + c + d, s) == Exec(d, Exec(c, Exec(b, Exec(a, s))))
  {
    hide Step;
    ExecAppend(a + b + c, d, s);
    Cat3(a, b, c, s);
  }

  lemma Cat5(a: Code, b: Code, c: Code, d: Code, e: Code, s: State)
    ensures Exec(a + b + c + d + e, s) == Exec(e, Exec(d, Exec(c, Exec(b, Exec(a, s)))))
  {
    hide Step;
    ExecAppend(a + b + c + d, e, s);
    Cat4(a, b, c, d, s);
  }

  lemma Cat6(a: Code, b: Code, c: Code, d: Code, e: Code, f: Code, s: State)
    ensures Exec(a + b + c + d + e + f, s) == Exec(f, Exec(e, Exec(d, Exec(c, Exec(b, Exec(a, s))))))
  {
    hide Step;
    ExecAppend(a + b + c + d + e, f, s);
    Cat5(a, b, c, d, e, s);
  }

  // ---- scratch addresses ----

  /** Different scratch offsets are different addresses, and all are scratch. */
  lemma ScratchFacts(sp: Word)
    ensures forall i, j :: -28 <= i < 0 && -28 <= j < 0 && Ea(sp, i) == Ea(sp, j) ==> i == j
    ensures forall i :: -28 <= i < 0 ==> Scratch(sp, Ea(sp, i))
  {
    forall i, j | -28 <= i < 0 && -28 <= j < 0 && Ea(sp, i) == Ea(sp, j) ensures i == j {
      EaInjective(sp, i, j);
    }
  }

  lemma EaZero(a: Word)
    ensures Ea(a, 0) == a
  {
  }

  lemma WrapWord(a: Word)
    ensures Wrap(a) == a && Wrap(a + 0) == a
  {
  }

  // ---- la, mv ----

  lemma LaRuns(r: Reg, addr: Word, s: State)
    requires r != ZERO
    ensures var t := Exec(La(r, addr), s);
      t.m == s.m && OnlyRegs(s.r, t.r, r, r, r) && Rd(t.r, r) == addr
  {
    hide Exec, Lo, Hi, Rd, Set, Wrap;
    Exec2(Lui(r, Hi(addr)), Addi(r, r, Lo(addr)), s);
    HiLo(addr);
  }

  lemma HiLo(addr: Word)
    ensures Wrap(Hi(addr) + Lo(addr)) == addr
  {
    WrapTwice(addr - Lo(addr), Lo(addr));
    WrapWord(addr);
  }

  lemma MvRuns(rd: Reg, rs: Reg, s: State)
    ensures var t := Step(Mv(rd, rs), s);
      t.m == s.m && OnlyRegs(s.r, t.r, rd, rd, rd) && (rd != ZERO ==> Rd(t.r, rd) == Rd(s.r, rs))
  {
    hide Rd, Set, Wrap;
    WrapWord(Rd(s.r, rs));
  }

  // ---- getbyte, msb ----

  function ByteOf(w: Word, k: int): Byte
    requires 0 <= k < 4
  {
    if k == 0 then B0(w) else if k == 1 then B1(w) else if k == 2 then B2(w) else B3(w)
  }

  lemma GetByteRuns(rd: Reg, rs: Reg, k: int, s: State)
    requires rd != ZERO && rd != SP && 0 <= k < 4
    ensures var t := Exec(GetByte(rd, rs, k), s);
      && OnlyRegs(s.r, t.r, rd, rd, rd) && Rd(t.r, rd) == ByteOf(Rd(s.r, rs), k)
      && Touched(Rd(s.r, SP), s.m, t.m, VC, VC + 4, 0, 0)
  {
    hide Exec, Rd, Set, Ld, St, B0, B1, B2, B3, Ea, Scratch, Wrap;
    Exec2(Sw(rs, VC, SP), Lbu(rd, VC + k, SP), s);
    ScratchFacts(Rd(s.r, SP));
  }

  lemma MsbRuns(rd: Reg, rs: Reg, s: State)
    requires rd != ZERO && rd != SP
    ensures var t := Exec(Msb(rd, rs), s);
      && OnlyRegs(s.r, t.r, rd, rd, rd) && Rd(t.r, rd) == Sign(Rd(s.r, rs))
      && Touched(Rd(s.r, SP), s.m, t.m, VC, VC + 4, 0, 0)
  {
    hide Rd, Set, Ld, St, Ea, Scratch, Wrap, Exec, Touched, ByteOf, Sign, GetByte;
    var s1 := Exec(GetByte(rd, rs, 3), s);
    GetByteRuns(rd, rs, 3, s);
    var s2 := Step(Add(rd, rd, rd), s1);
    assert Slli(rd, rd, 1) == [Add(rd, rd, rd)];
    Exec1(Add(rd, rd, rd), s1);
    GetByteRuns(rd, rd, 1, s2);
    Cat3(GetByte(rd, rs, 3), Slli(rd, rd, 1), GetByte(rd, rd, 1), s);
    SignByte(Rd(s.r, rs));
    TouchedTrans(Rd(s.r, SP), s.m, s1.m, Exec(GetByte(rd, rd, 1), s2).m, VC, VC + 4, 0, 0);
  }

  /** The sign bit of a word. */
  function Sign(w: Word): Byte { if w >= 0x8000_0000 then 1 else 0 }

  lemma SignByte(w: Word)
    ensures ByteOf(Wrap(ByteOf(w, 3) + ByteOf(w, 3)), 1) == Sign(w)
  {
    var b := w / 0x100_0000;
    assert b == ByteOf(w, 3);
    assert Wrap(b + b) == b + b;
    assert (b + b) / 0x100 == Sign(w);
  }
}
