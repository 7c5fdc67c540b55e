/** Running slli by any amount, and the loads and stores of bytes and halves. */
module RvAccess {
  import opened Bits
  import opened RvMachine
  import opened RvTables
  import opened RvIsa
  import opened RvMacros
  import opened RvBasics
  import opened RvArith
  import opened RvLogic
  import opened RvEqual
  import opened RvShift
  import opened RvShiftMath
  import opened RvShiftRight

  // ---- code that writes only temporaries and scratch words ----

  /** Writes x0 or tp, or a scratch word. */
  predicate Idle(i: Instr) {
    match i
    case Add(rd, _, _) => rd == ZERO || rd == TP
    case Addi(rd, _, _) => rd == ZERO || rd == TP
    case Lui(rd, _) => rd == ZERO || rd == TP
    case Lw(rd, _, _) => rd == ZERO || rd == TP
    case Lbu(rd, _, _) => rd == ZERO || rd == TP
    case Sw(_, off, base) => base == SP && -28 <= off <= -4
    case Sb(_, off, base) => base == SP && -28 <= off < 0
  }

  predicate AllIdle(code: Code) {
    forall k :: 0 <= k < |code| ==> Idle(code[k])
  }

  lemma IdleStep(i: Instr, s: State)
    requires Idle(i)
    ensures var s' := Step(i, s); OnlyRegs(s.r, s'.r, TP, TP, TP) && Kept(Rd(s.r, SP), s.m, s'.m)
  {
    hide Rd, Set, Ld, LdW, Scratch, Ea, Touched, Wrap, B0, HoldsWord;
    match i
    case Sw(rs, off, base) =>
      SwRuns(rs, off, s);
      TouchedKept(Rd(s.r, SP), s.m, Step(i, s).m, off, off + 4, 0, 0);
    case Sb(rs, off, base) =>
      SbRuns(rs, off, s);
      TouchedKept(Rd(s.r, SP), s.m, Step(i, s).m, off, off + 1, 0, 0);
    case _ =>
  }

  lemma {:induction false} IdleRuns(code: Code, s: State)
    requires AllIdle(code)
    ensures var s' := Exec(code, s); OnlyRegs(s.r, s'.r, TP, TP, TP) && Kept(Rd(s.r, SP), s.m, s'.m)
  {
    hide Rd, Ld, Scratch, Step, Idle;
    if code != [] {
      var s1 := Step(code[0], s);
      IdleStep(code[0], s);
      IdleRuns(code[1..], s1);
    }
  }

  lemma IdleDoubles(n: nat)
    ensures AllIdle(Doubles(ZERO, n))
  {
  }

  // ---- slli ----

  lemma LoadA(rd: Reg, v: Word, s: State)
    requires rd != ZERO && LdW(s.m, Rd(s.r, SP), VA) == v
    ensures var s' := Exec([Lw(rd, VA, SP)], s);
      s'.m == s.m && OnlyRegs(s.r, s'.r, rd, rd, rd) && Rd(s'.r, rd) == v
  {
    hide Exec, Rd, Set, LdW;
    Exec1(Lw(rd, VA, SP), s);
  }

  /** A byte moved to the top of a word, through the word A. */
  lemma ByteToTop(rd: Reg, rs: Reg, s: State)
    requires rd != ZERO && rd != SP
    ensures var s', sp := Exec([Sw(ZERO, VA, SP), Sb(rs, VA + 3, SP), Lw(rd, VA, SP)], s), Rd(s.r, SP);
      && OnlyRegs(s.r, s'.r, rd, rd, rd) && Rd(s'.r, rd) == W4(0, 0, 0, B0(Rd(s.r, rs)))
      && Touched(sp, s.m, s'.m, VA, VA + 4, 0, 0)
  {
    hide Exec, Rd, Set, Ld, St, Ea, Scratch, W4, B0, B1, B2, B3;
    Exec3(Sw(ZERO, VA, SP), Sb(rs, VA + 3, SP), Lw(rd, VA, SP), s);
    ScratchFacts(Rd(s.r, SP));
    ReadZero(s.r);
    ZeroIsZero();
  }

  /** A half moved to the top of a word, through the word A. */
  lemma HalfToTop(rd: Reg, rs: Reg, s: State)
    requires rd != ZERO && rd != SP
    ensures var c: Code := [Sw(ZERO, VA, SP)] + Sh(rs, VA + 2, SP) + [Lw(rd, VA, SP)];
      var s', sp, w := Exec(c, s), Rd(s.r, SP), Rd(s.r, rs);
      && OnlyRegs(s.r, s'.r, rd, TP, TP) && Rd(s'.r, rd) == W4(0, 0, B0(w), B1(w)) && Kept(sp, s.m, s'.m)
  {
    hide Exec, Rd, Ld, Ea, Sh, Step, Touched, LdW, Kept, W4, B0, B1, B2, B3;
    var sp, w := Rd(s.r, SP), Rd(s.r, rs);
    var s1 := Step(Sw(ZERO, VA, SP), s);
    Exec1(Sw(ZERO, VA, SP), s);
    SwRuns(ZERO, VA, s);
    ReadZero(s.r);
    ZeroBytes(s1.m, sp, VA);
    var s2 := Exec(Sh(rs, VA + 2, SP), s1);
    ShScratch(rs, VA, s1);
    LoadA(rd, W4(0, 0, B0(w), B1(w)), s2);
    Cat3([Sw(ZERO, VA, SP)], Sh(rs, VA + 2, SP), [Lw(rd, VA, SP)], s);
    TouchedKept(sp, s.m, s1.m, VA, VA + 4, 0, 0);
    TouchedKept(sp, s1.m, s2.m, VC, VC + 4, VA, VA + 4);
    KeptTrans(sp, s.m, s1.m, s2.m);
  }

  lemma ShiftAgain(x: Word, a: nat, b: nat)
    ensures Wrap(Wrap(x * Pow2(a)) * Pow2(b)) == Wrap(x * Pow2(a + b))
  {
    hide Pow2, Wrap;
    WrapMul(x * Pow2(a), Pow2(b));
    Pow2Add(a, b);
    assert x * Pow2(a) * Pow2(b) == x * (Pow2(a) * Pow2(b));
  }

  lemma SlliLow(rd: Reg, rs: Reg, imm: nat, s: State)
    requires rd != ZERO && rd != SP && imm < 16
    ensures var s' := Exec(Slli(rd, rs, imm), s);
      && OnlyRegs(s.r, s'.r, rd, TP, TP) && Kept(Rd(s.r, SP), s.m, s'.m) &&
        Rd(s'.r, rd) == Wrap(Rd(s.r, rs) * Pow2(imm))
  {
    if imm > 0 {
      hide Exec, Rd, Wrap, Slli, Pow2, Ld, Scratch;
      SlliSmallRuns(rd, rs, imm, s);
    } else {
      hide Exec, Rd, Wrap, Step, Ld, Scratch;
      WrapWord(Rd(s.r, rs));
      NoCode(s);
      Exec1(Mv(rd, rs), s);
      MvRuns(rd, rs, s);
    }
  }

  /** slli by any constant, also with x0 as destination. */
  lemma SlliRuns(rd: Reg, rs: Reg, imm: nat, s: State)
    requires rd != SP && imm < 32
    ensures var s' := Exec(Slli(rd, rs, imm), s);
      && OnlyRegs(s.r, s'.r, rd, TP, TP) && Kept(Rd(s.r, SP), s.m, s'.m)
      && (rd != ZERO ==> Rd(s'.r, rd) == Wrap(Rd(s.r, rs) * Pow2(imm)))
  {
    hide Exec, Rd, Wrap, Pow2, Kept, Touched, Sh, B0, B1, W4;
    if rd == ZERO {
      SlliIdle(rs, imm);
      IdleRuns(Slli(ZERO, rs, imm), s);
    } else if imm < 16 {
      SlliLow(rd, rs, imm, s);
    } else {
      var sp, x, n := Rd(s.r, SP), Rd(s.r, rs), if imm >= 24 then 24 else 16;
      var c: Code := if imm >= 24 then [Sw(ZERO, VA, SP), Sb(rs, VA + 3, SP), Lw(rd, VA, SP)]
        else [Sw(ZERO, VA, SP)] + Sh(rs, VA + 2, SP) + [Lw(rd, VA, SP)];
      var s1 := Exec(c, s);
      if imm >= 24 {
        ByteToTop(rd, rs, s);
        TouchedKept(sp, s.m, s1.m, VA, VA + 4, 0, 0);
      } else {
        HalfToTop(rd, rs, s);
      }
      HighByte(x);
      HighHalf(x);
      Pow2Values();
      SlliLow(rd, rd, imm - n, s1);
      SlliCode(rd, rs, imm, n, c);
      ExecAppend(c, Slli(rd, rd, imm - n), s);
      ShiftAgain(x, n, imm - n);
      KeptTrans(sp, s.m, s1.m, Exec(Slli(rd, rd, imm - n), s1).m);
    }
  }

  lemma SlliCode(rd: Reg, rs: Reg, imm: nat, n: nat, c: Code)
    requires 16 <= imm < 32 && n == if imm >= 24 then 24 else 16
    requires c == if imm >= 24 then [Sw(ZERO, VA, SP), Sb(rs, VA + 3, SP), Lw(rd, VA, SP)]
      else [Sw(ZERO, VA, SP)] + Sh(rs, VA + 2, SP) + [Lw(rd, VA, SP)]
    ensures Slli(rd, rs, imm) == c + Slli(rd, rd, imm - n)
  {
    hide Sh;
  }

  lemma SlliIdle(rs: Reg, imm: nat)
    requires imm < 32
    ensures AllIdle(Slli(ZERO, rs, imm))
  {
    if imm >= 24 {
      SlliIdle(ZERO, imm - 24);
      SlliCode(ZERO, rs, imm, 24, [Sw(ZERO, VA, SP), Sb(rs, VA + 3, SP), Lw(ZERO, VA, SP)]);
    } else if imm >= 16 {
      SlliIdle(ZERO, imm - 16);
      SlliCode(ZERO, rs, imm, 16, [Sw(ZERO, VA, SP)] + Sh(rs, VA + 2, SP) + [Lw(ZERO, VA, SP)]);
    } else if imm > 0 {
      IdleDoubles(imm - 1);
    }
  }

  /** srli and srai into x0 change nothing but tp and scratch words. */
  lemma ShiftRightZero(t: Tables, rs1: Reg, imm: nat, arith: bool, s: State)
    requires Ready(t, s) && imm < 32
    ensures var s' := Exec(ShiftRightImm(t, ZERO, rs1, imm, arith), s);
      OnlyRegs(s.r, s'.r, ZERO, TP, GP) && Kept(Rd(s.r, SP), s.m, s'.m)
  {
    hide Rd, Exec, Ready, HoldsWord, Wrap, ShiftRightRow, RowOf, Kept, La, Slli, ShiftedRight;
    if imm == 24 {
      ZeroFastIdle(t, rs1, arith);
      IdleRuns(ShiftRightImm(t, ZERO, rs1, imm, arith), s);
    } else {
      var c: Code := [Sw(S0, V1, SP), Sw(rs1, VA, SP)] + La(S0, Wrap(t.lst + SRL8 + imm * 1024));
      var s1 := Exec(c, s);
      LaRowRuns(t, rs1, imm, s);
      ShiftRightRowRuns(t, imm, Rd(s.r, rs1), ZERO, arith, Rd(s.r, S0), s1);
      ExecAppend(c, ShiftRightRow(ZERO, arith), s);
      KeptTrans(Rd(s.r, SP), s.m, s1.m, Exec(ShiftRightRow(ZERO, arith), s1).m);
    }
  }

  lemma ZeroFastIdle(t: Tables, rs1: Reg, arith: bool)
    ensures AllIdle(ShiftRightImm(t, ZERO, rs1, 24, arith))
  {
    hide Hi, Lo, Wrap;
    SlliIdle(ZERO, 2);
  }

  // ---- sign extension ----

  /** The quotient of a signed word whose low bits are zero. */
  lemma SignedQuotient(v: int, p: int)
    requires p == 0x1_0000 || p == 0x100_0000
    ensures FloorDiv(v * p, p) == v
  {
    DivModUnique(v * p, p, v, 0);
  }

  lemma TopByteDown(b: Byte)
    ensures ShiftedRight(W4(0, 0, 0, b), 24, true) == SignExtend8(b)
  {
    hide Pow2, FloorDiv, Wrap;
    Pow2Values();
    var v := if b >= 0x80 then b - 0x100 else b;
    WordSum(0, 0, 0, b);
    assert Signed(W4(0, 0, 0, b)) == v * 0x100_0000;
    SignedQuotient(v, 0x100_0000);
    WrapSmall(b);
    WrapSmall(b - 0x100 + W32);
    WrapAround(b - 0x100, 1);
  }

  lemma TopHalfDown(b: Byte, c: Byte)
    ensures Wrap(c + ShiftedRight(W4(0, 0, 0, b), 16, true)) == SignExtend16(0x100 * b + c)
  {
    hide Pow2, FloorDiv, Wrap;
    Pow2Values();
    var v := if b >= 0x80 then 0x100 * b - 0x1_0000 else 0x100 * b;
    WordSum(0, 0, 0, b);
    assert Signed(W4(0, 0, 0, b)) == v * 0x1_0000;
    SignedQuotient(v, 0x1_0000);
    WrapTwice(v, c);
    if b >= 0x80 {
      WrapSmall(v + c + W32);
      WrapAround(v + c, 1);
    } else {
      WrapSmall(v + c);
    }
  }

  // ---- loads ----

  /** The byte at an offset is no scratch byte, so that an expansion may read it late. */
  ghost predicate Unscratched(s: State, base: Reg, off: int) {
    !Scratch(Rd(s.r, SP), Ea(Rd(s.r, base), off))
  }

  /** One byte of user memory to the top of a word, through the word A. */
  lemma LoadToTop(rd: Reg, off: int, base: Reg, s: State)
    requires rd != ZERO && rd != SP && Unscratched(s, base, off)
    ensures var s', sp := Exec([Sw(ZERO, VA, SP), Lbu(rd, off, base), Sb(rd, VA + 3, SP), Lw(rd, VA, SP)], s),
      Rd(s.r, SP);
      && OnlyRegs(s.r, s'.r, rd, rd, rd) && Rd(s'.r, rd) == W4(0, 0, 0, Ld(s.m, Ea(Rd(s.r, base), off)))
      && Kept(sp, s.m, s'.m)
  {
    hide Exec, Rd, Set, Ld, St, Ea, Scratch, W4, B0, B1, B2, B3;
    Exec4(Sw(ZERO, VA, SP), Lbu(rd, off, base), Sb(rd, VA + 3, SP), Lw(rd, VA, SP), s);
    ScratchFacts(Rd(s.r, SP));
    ReadZero(s.r);
    ZeroIsZero();
    ByteWord(Ld(s.m, Ea(Rd(s.r, base), off)));
  }

  lemma LoadZeroIdle(off: int, base: Reg)
    ensures AllIdle([Sw(ZERO, VA, SP), Lbu(ZERO, off, base), Sb(ZERO, VA + 3, SP), Lw(ZERO, VA, SP)])
  {
  }

  /** lb loads a byte and extends its sign. */
  lemma LbRuns(t: Tables, rd: Reg, off: int, base: Reg, s: State)
    requires Ready(t, s) && rd != SP && rd != TP && Unscratched(s, base, off)
    ensures var s' := Exec(Lb(t, rd, off, base), s);
      && OnlyRegs(s.r, s'.r, rd, TP, GP) && Kept(Rd(s.r, SP), s.m, s'.m)
      && (rd != ZERO ==> Rd(s'.r, rd) == SignExtend8(Ld(s.m, Ea(Rd(s.r, base), off))))
  {
    hide Exec, Rd, Ld, Ea, Scratch, Ready, Kept, ShiftRightImm, ShiftedRight, W4, SignExtend8;
    var sp := Rd(s.r, SP);
    var c: Code := [Sw(ZERO, VA, SP), Lbu(rd, off, base), Sb(rd, VA + 3, SP), Lw(rd, VA, SP)];
    var s1 := Exec(c, s);
    ExecAppend(c, ShiftRightImm(t, rd, rd, 24, true), s);
    if rd == ZERO {
      LoadZeroIdle(off, base);
      IdleRuns(c, s);
      ReadyKept(t, s, s1);
      ShiftRightZero(t, ZERO, 24, true, s1);
    } else {
      var b := Ld(s.m, Ea(Rd(s.r, base), off));
      LoadToTop(rd, off, base, s);
      ReadyKept(t, s, s1);
      ShiftRightImmRuns(t, rd, rd, 24, true, s1);
      TopByteDown(b);
    }
    KeptTrans(sp, s.m, s1.m, Exec(ShiftRightImm(t, rd, rd, 24, true), s1).m);
  }

  lemma AddByteRuns(rd: Reg, off: int, base: Reg, rs: Reg, s: State)
    requires rd != SP && (rs != rd || rd == ZERO)
    ensures var s', v := Exec([Lbu(rd, off, base), Add(rd, rd, rs)], s), Ld(s.m, Ea(Rd(s.r, base), off));
      s'.m == s.m && OnlyRegs(s.r, s'.r, rd, rd, rd) && (rd != ZERO ==> Rd(s'.r, rd) == Wrap(v + Rd(s.r, rs)))
  {
    hide Exec, Rd, Set, Ld, Ea, Wrap;
    Exec2(Lbu(rd, off, base), Add(rd, rd, rs), s);
  }

  /** lh loads two bytes and extends their sign. */
  lemma LhRuns(t: Tables, rd: Reg, off: int, base: Reg, s: State)
    requires Ready(t, s) && rd !in {SP, GP, TP} && base !in {GP, TP} && Unscratched(s, base, off) &&
      Unscratched(s, base, off + 1)
    ensures var s', a := Exec(Lh(t, rd, off, base), s), Rd(s.r, base);
      && OnlyRegs(s.r, s'.r, rd, TP, GP) && Kept(Rd(s.r, SP), s.m, s'.m)
      && (rd != ZERO ==> Rd(s'.r, rd) == SignExtend16(0x100 * Ld(s.m, Ea(a, off + 1)) + Ld(s.m, Ea(a, off))))
  {
    hide Exec, Rd, Ld, Ea, Scratch, Ready, ShiftRightImm, ShiftedRight, W4, SignExtend16, Wrap;
    var sp, a := Rd(s.r, SP), Rd(s.r, base);
    var c: Code := [Sw(ZERO, VA, SP), Lbu(GP, 1 + off, base), Sb(GP, VA + 3, SP), Lw(GP, VA, SP)];
    var s1 := Exec(c, s);
    LoadToTop(GP, 1 + off, base, s);
    ReadyKept(t, s, s1);
    var s2 := Exec(ShiftRightImm(t, GP, GP, 16, true), s1);
    ShiftRightImmRuns(t, GP, GP, 16, true, s1);
    AddByteRuns(rd, 0 + off, base, GP, s2);
    TopHalfDown(Ld(s.m, Ea(a, off + 1)), Ld(s.m, Ea(a, off)));
    Cat3(c, ShiftRightImm(t, GP, GP, 16, true), [Lbu(rd, 0 + off, base), Add(rd, rd, GP)], s);
  }

  lemma HalfLow(b: Byte, c: Byte)
    ensures Wrap(c + W4(0, b, 0, 0)) == 0x100 * b + c
  {
    hide Wrap;
    WordSum(0, b, 0, 0);
    WrapSmall(c + 0x100 * b);
  }

  lemma LoadToMid(off: int, base: Reg, s: State)
    requires Unscratched(s, base, off)
    ensures var s', sp := Exec([Sw(ZERO, VA, SP), Lbu(TP, off, base), Sb(TP, VA + 1, SP), Lw(TP, VA, SP)], s),
      Rd(s.r, SP);
      && OnlyRegs(s.r, s'.r, TP, TP, TP) && Rd(s'.r, TP) == W4(0, Ld(s.m, Ea(Rd(s.r, base), off)), 0, 0)
      && Kept(sp, s.m, s'.m)
  {
    hide Exec, Rd, Set, Ld, St, Ea, Scratch, W4, B0, B1, B2, B3;
    Exec4(Sw(ZERO, VA, SP), Lbu(TP, off, base), Sb(TP, VA + 1, SP), Lw(TP, VA, SP), s);
    ScratchFacts(Rd(s.r, SP));
    ReadZero(s.r);
    ZeroIsZero();
    ByteWord(Ld(s.m, Ea(Rd(s.r, base), off)));
  }

  /** lhu loads two bytes. */
  lemma LhuRuns(rd: Reg, off: int, base: Reg, s: State)
    requires rd !in {SP, TP} && base != TP && Unscratched(s, base, off) && Unscratched(s, base, off + 1)
    ensures var s', a := Exec(Lhu(rd, off, base), s), Rd(s.r, base);
      && OnlyRegs(s.r, s'.r, rd, TP, TP) && Kept(Rd(s.r, SP), s.m, s'.m)
      && (rd != ZERO ==> Rd(s'.r, rd) == 0x100 * Ld(s.m, Ea(a, off + 1)) + Ld(s.m, Ea(a, off)))
  {
    hide Exec, Rd, Ld, Ea, Scratch, W4, Wrap;
    var sp, a := Rd(s.r, SP), Rd(s.r, base);
    var c: Code := [Sw(ZERO, VA, SP), Lbu(TP, 1 + off, base), Sb(TP, VA + 1, SP), Lw(TP, VA, SP)];
    var d: Code := [Lbu(rd, 0 + off, base), Add(rd, rd, TP)];
    var s1 := Exec(c, s);
    LoadToMid(1 + off, base, s);
    AddByteRuns(rd, 0 + off, base, TP, s1);
    HalfLow(Ld(s.m, Ea(a, off + 1)), Ld(s.m, Ea(a, off)));
    assert Lhu(rd, off, base) == c + d;
    ExecAppend(c, d, s);
  }

  // ---- sh ----

  /** sh stores the two low bytes; besides them only scratch words change. */
  lemma ShRuns(rs: Reg, off: int, base: Reg, s: State)
    requires base != TP && rs != TP
    ensures var s', sp, a, w := Exec(Sh(rs, off, base), s), Rd(s.r, SP), Rd(s.r, base), Rd(s.r, rs);
      && OnlyRegs(s.r, s'.r, TP, TP, TP)
      && Kept(sp, St(St(s.m, Ea(a, off), B0(w)), Ea(a, off + 1), B1(w)), s'.m)
  {
    hide Exec, Rd, Set, Ld, St, Ea, Scratch, B0, B1, B2, B3, GetByte;
    var sp, w := Rd(s.r, SP), Rd(s.r, rs);
    var s1 := Step(Sb(rs, 0 + off, base), s);
    Exec1(Sb(rs, 0 + off, base), s);
    var s2 := Exec(GetByte(TP, rs, 1), s1);
    GetByteRuns(TP, rs, 1, s1);
    Exec1(Sb(TP, 1 + off, base), s2);
    ByteWord(B1(w));
    Cat3([Sb(rs, 0 + off, base)], GetByte(TP, rs, 1), [Sb(TP, 1 + off, base)], s);
  }
}
