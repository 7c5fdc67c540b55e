/** Running and, or and xor, byte by byte through their tables. */
module RvLogic {
  import opened Bits
  import opened RvMachine
  import opened RvTables
  import opened RvMacros
  import opened RvBasics
  import opened RvArith

  datatype LogicOp = AndOp | OrOp | XorOp

  function BitsOf(op: LogicOp, a: nat, b: nat): nat {
    match op
    case AndOp => BitAnd(a, b)
    case OrOp => BitOr(a, b)
    case XorOp => BitXor(a, b)
  }

  function TableOf(t: Tables, op: LogicOp): Word {
    match op
    case AndOp => t.lst
    case OrOp => Wrap(t.lst + OR8)
    case XorOp => Wrap(t.lst + XOR8)
  }

  lemma LogicEntry(t: Tables, m: Mem, op: LogicOp, j: Byte, i: Byte)
    requires Placed(t) && Loaded(t, m)
    ensures TableOf(t, op) + 0x1_0000 <= W32
    ensures Ld(m, TableOf(t, op) + 256 * j + i) == BitsOf(op, j, i)
  {
    hide Ld, BitAnd, BitOr, BitXor, Wrap;
    WrapSmall(t.lst + OR8);
    WrapSmall(t.lst + XOR8);
    assert AndLoaded(t, m, j, i) && OrLoaded(t, m, j, i) && XorLoaded(t, m, j, i);
  }

  /** Address of the entry for byte a of one operand and b of the other. */
  lemma EntryAddress(lut: Word, a: Byte, b: Byte)
    requires lut + 0x1_0000 <= W32
    ensures Wrap(lut + W4(b, a, 0, 0)) == lut + 256 * a + b
  {
    WordSum(b, a, 0, 0);
    WrapSmall(lut + 256 * a + b);
  }

  lemma LogicByteLoads(lutReg: Reg, k: int, s: State)
    requires 0 <= k < 4 && lutReg != TP && lutReg != SP
    requires var sp := Rd(s.r, SP); Ld(s.m, Ea(sp, VD + 2)) == 0 && Ld(s.m, Ea(sp, VD + 3)) == 0
    ensures var sp := Rd(s.r, SP);
      var s' := Exec([Lbu(TP, VA + k, SP), Sb(TP, VD + 1, SP), Lbu(TP, VB + k, SP), Sb(TP, VD, SP)], s);
      && OnlyRegs(s.r, s'.r, TP, TP, TP) && Touched(sp, s.m, s'.m, VD, VD + 2, 0, 0)
      && LdW(s'.m, sp, VD) == W4(Ld(s.m, Ea(sp, VB + k)), Ld(s.m, Ea(sp, VA + k)), 0, 0)
  {
    hide Exec, Rd, Set, Ld, St, Ea, Scratch, B0, W4;
    var sp := Rd(s.r, SP);
    Exec4(Lbu(TP, VA + k, SP), Sb(TP, VD + 1, SP), Lbu(TP, VB + k, SP), Sb(TP, VD, SP), s);
    ScratchFacts(sp);
    ByteWord(Ld(s.m, Ea(sp, VA + k)));
    ByteWord(Ld(s.m, Ea(sp, VB + k)));
  }

  lemma LogicByteStores(lutReg: Reg, k: int, s: State, a: Byte, b: Byte)
    requires 0 <= k < 4 && lutReg != TP && lutReg != SP
    requires LdW(s.m, Rd(s.r, SP), VD) == W4(b, a, 0, 0) && Rd(s.r, lutReg) + 0x1_0000 <= W32
    ensures var s', sp := Exec([Lw(TP, VD, SP), Add(TP, lutReg, TP), Lbu(TP, 0, TP), Sb(TP, VC + k, SP)], s),
      Rd(s.r, SP);
      && OnlyRegs(s.r, s'.r, TP, TP, TP) && Touched(sp, s.m, s'.m, VC + k, VC + k + 1, 0, 0)
      && Ld(s'.m, Ea(sp, VC + k)) == Ld(s.m, Rd(s.r, lutReg) + 256 * a + b)
  {
    hide Exec, Rd, Set, Ld, St, Ea, Scratch, B0, W4, LdW, Wrap;
    var sp, lut := Rd(s.r, SP), Rd(s.r, lutReg);
    Exec4(Lw(TP, VD, SP), Add(TP, lutReg, TP), Lbu(TP, 0, TP), Sb(TP, VC + k, SP), s);
    EntryAddress(lut, a, b);
    EaZero(lut + 256 * a + b);
    ByteWord(Ld(s.m, lut + 256 * a + b));
    ScratchFacts(sp);
  }

  lemma LogicByteRuns(t: Tables, op: LogicOp, lutReg: Reg, k: int, s: State)
    requires Ready(t, s) && 0 <= k < 4 && lutReg != TP && lutReg != SP && Rd(s.r, lutReg) == TableOf(t, op)
    requires var sp := Rd(s.r, SP); Ld(s.m, Ea(sp, VD + 2)) == 0 && Ld(s.m, Ea(sp, VD + 3)) == 0
    ensures var s', sp := Exec(LogicByte(lutReg, k), s), Rd(s.r, SP);
      && OnlyRegs(s.r, s'.r, TP, TP, TP) && Touched(sp, s.m, s'.m, VD, VD + 2, VC + k, VC + k + 1)
      && Ld(s'.m, Ea(sp, VC + k)) == BitsOf(op, Ld(s.m, Ea(sp, VA + k)), Ld(s.m, Ea(sp, VB + k)))
      && Ready(t, s')
  {
    hide Rd, Set, Ld, St, Ea, Scratch, W4, LdW, Ready, Exec, BitsOf, TableOf, Wrap, Touched;
    var sp, lut := Rd(s.r, SP), TableOf(t, op);
    var a, b := Ld(s.m, Ea(sp, VA + k)), Ld(s.m, Ea(sp, VB + k));
    var c: Code := [Lbu(TP, VA + k, SP), Sb(TP, VD + 1, SP), Lbu(TP, VB + k, SP), Sb(TP, VD, SP)];
    var d: Code := [Lw(TP, VD, SP), Add(TP, lutReg, TP), Lbu(TP, 0, TP), Sb(TP, VC + k, SP)];
    assert LogicByte(lutReg, k) == c + d;
    ExecAppend(c, d, s);
    ReadyParts(t, s);
    LogicEntry(t, s.m, op, a, b);
    LogicByteLoads(lutReg, k, s);
    var s1 := Exec(c, s);
    ReadyTouched(t, s, s1, VD, VD + 2, 0, 0);
    ReadyParts(t, s1);
    LogicEntry(t, s1.m, op, a, b);
    LogicByteStores(lutReg, k, s1, a, b);
    var s2 := Exec(d, s1);
    TouchedWider(sp, s.m, s1.m, VD, VD + 2, 0, 0, VD, VD + 2, VC + k, VC + k + 1);
    TouchedWider(sp, s1.m, s2.m, VC + k, VC + k + 1, 0, 0, VD, VD + 2, VC + k, VC + k + 1);
    TouchedTrans(sp, s.m, s1.m, s2.m, VD, VD + 2, VC + k, VC + k + 1);
    ReadyTouched(t, s, s2, VD, VD + 2, VC + k, VC + k + 1);
  }

  function LogicStart(lut: Word, rd: Reg, rs1: Reg, rs2: Reg): Code {
    [Sw(rs1, VA, SP), Sw(rs2, VB, SP)] + La(rd, lut) + [Sw(ZERO, VD, SP)]
  }

  lemma LogicStores(rs1: Reg, rs2: Reg, s: State)
    ensures var s', sp := Exec([Sw(rs1, VA, SP), Sw(rs2, VB, SP)], s), Rd(s.r, SP);
      && s'.r == s.r && Touched(sp, s.m, s'.m, VB, VA + 4, 0, 0)
      && HoldsWord(s'.m, sp, VA, Rd(s.r, rs1)) && HoldsWord(s'.m, sp, VB, Rd(s.r, rs2))
  {
    hide Exec, Rd, Ld, Ea, Scratch, B0, B1, B2, B3, Step;
    var s1 := Step(Sw(rs1, VA, SP), s);
    Exec2(Sw(rs1, VA, SP), Sw(rs2, VB, SP), s);
    SwRuns(rs1, VA, s);
    SwRuns(rs2, VB, s1);
  }

  lemma LogicStartRuns(lut: Word, rd: Reg, rs1: Reg, rs2: Reg, s: State)
    requires rd != ZERO && rd != SP
    ensures var s', sp := Exec(LogicStart(lut, rd, rs1, rs2), s), Rd(s.r, SP);
      && OnlyRegs(s.r, s'.r, rd, rd, rd) && Rd(s'.r, rd) == lut && Touched(sp, s.m, s'.m, VB, VA + 4, VD, VD + 4)
      && HoldsWord(s'.m, sp, VA, Rd(s.r, rs1)) && HoldsWord(s'.m, sp, VB, Rd(s.r, rs2))
      && HoldsWord(s'.m, sp, VD, 0)
  {
    hide Exec, Rd, Ld, Ea, Scratch, B0, B1, B2, B3, La, Step;
    var c: Code := [Sw(rs1, VA, SP), Sw(rs2, VB, SP)];
    var s1 := Exec(c, s);
    LogicStores(rs1, rs2, s);
    var s2 := Exec(La(rd, lut), s1);
    LaRuns(rd, lut, s1);
    Exec1(Sw(ZERO, VD, SP), s2);
    SwRuns(ZERO, VD, s2);
    ReadZero(s2.r);
    Cat3(c, La(rd, lut), [Sw(ZERO, VD, SP)], s);
  }

  lemma ReadZero(r: Regs)
    ensures Rd(r, ZERO) == 0
  {
  }

  lemma ZeroBytes(m: Mem, base: Word, off: int)
    requires HoldsWord(m, base, off, 0)
    ensures Ld(m, Ea(base, off)) == 0 && Ld(m, Ea(base, off + 1)) == 0
    ensures Ld(m, Ea(base, off + 2)) == 0 && Ld(m, Ea(base, off + 3)) == 0
  {
  }

  /** The four byte results are the word result. */
  lemma BytewiseLogic(op: LogicOp, a: Word, b: Word)
    ensures W4n(BitsOf(op, B0(a), B0(b)), BitsOf(op, B1(a), B1(b)), BitsOf(op, B2(a), B2(b)),
      BitsOf(op, B3(a), B3(b))) == BitsOf(op, a, b)
  {
    hide BitAnd, BitOr, BitXor, Pow2;
    Pow2Values();
    Peel(op, a, b);
    Peel(op, a / 0x100, b / 0x100);
    Peel(op, a / 0x100 / 0x100, b / 0x100 / 0x100);
    DivChain(a);
    DivChain(b);
  }

  function W4n(b0: nat, b1: nat, b2: nat, b3: nat): nat { b0 + 0x100 * b1 + 0x1_0000 * b2 + 0x100_0000 * b3 }

  lemma Peel(op: LogicOp, a: nat, b: nat)
    ensures BitsOf(op, a, b) == BitsOf(op, a / 0x100, b / 0x100) * 0x100 + BitsOf(op, a % 0x100, b % 0x100)
  {
    hide BitAnd, BitOr, BitXor, Pow2;
    Pow2Values();
    match op
    case AndOp => AndSplit(8, 0x100, a, a / 0x100, a % 0x100, b, b / 0x100, b % 0x100);
    case OrOp => OrSplit(8, 0x100, a, a / 0x100, a % 0x100, b, b / 0x100, b % 0x100);
    case XorOp => XorSplit(8, 0x100, a, a / 0x100, a % 0x100, b, b / 0x100, b % 0x100);
  }

  /** logic: rd is the bitwise result of the two source words. */
  lemma LogicRuns(t: Tables, op: LogicOp, rd: Reg, rs1: Reg, rs2: Reg, s: State)
    requires Ready(t, s) && rd != SP && rd != TP
    ensures var s' := Exec(Logic(TableOf(t, op), rd, rs1, rs2), s);
      && OnlyRegs(s.r, s'.r, rd, TP, TP) && Kept(Rd(s.r, SP), s.m, s'.m)
      && (rd != ZERO ==> Rd(s'.r, rd) == BitsOf(op, Rd(s.r, rs1), Rd(s.r, rs2)))
  {
    hide Rd, Set, Ld, St, Ea, Scratch, Ready, Exec, BitsOf, TableOf, LogicByte, La, B0, B1, B2, B3, W4, HoldsWord;
    if rd == ZERO {
      NoCode(s);
      return;
    }
    var lut, sp, a, b := TableOf(t, op), Rd(s.r, SP), Rd(s.r, rs1), Rd(s.r, rs2);
    var s0 := Exec(LogicStart(lut, rd, rs1, rs2), s);
    LogicStartRuns(lut, rd, rs1, rs2, s);
    ReadyTouched(t, s, s0, VB, VA + 4, VD, VD + 4);
    ZeroBytes(s0.m, sp, VD);
    var s1 := Exec(LogicByte(rd, 3), s0);
    LogicByteRuns(t, op, rd, 3, s0);
    var s2 := Exec(LogicByte(rd, 2), s1);
    LogicByteRuns(t, op, rd, 2, s1);
    var s3 := Exec(LogicByte(rd, 1), s2);
    LogicByteRuns(t, op, rd, 1, s2);
    var s4 := Exec(LogicByte(rd, 0), s3);
    LogicByteRuns(t, op, rd, 0, s3);
    LogicCat(lut, rd, rs1, rs2, s);
    LogicEnd(op, rd, s4, s0, a, b);
  }

  lemma NoCode(s: State)
    ensures Exec([], s) == s
  {
  }

  lemma LogicCat(lut: Word, rd: Reg, rs1: Reg, rs2: Reg, s: State)
    requires rd != ZERO
    ensures Exec(Logic(lut, rd, rs1, rs2), s) ==
      Exec([Lw(rd, VC, SP)],
        Exec(LogicByte(rd, 0),
          Exec(LogicByte(rd, 1),
            Exec(LogicByte(rd, 2), Exec(LogicByte(rd, 3), Exec(LogicStart(lut, rd, rs1, rs2), s))))))
  {
    hide Exec, LogicByte, La;
    Cat6(LogicStart(lut, rd, rs1, rs2), LogicByte(rd, 3), LogicByte(rd, 2), LogicByte(rd, 1), LogicByte(rd, 0),
      [Lw(rd, VC, SP)], s);
  }

  lemma LogicEnd(op: LogicOp, rd: Reg, s: State, s0: State, a: Word, b: Word)
    requires rd != ZERO && rd != SP
    requires var sp := Rd(s.r, SP);
      && HoldsWord(s0.m, sp, VA, a) && HoldsWord(s0.m, sp, VB, b)
      && Ld(s.m, Ea(sp, VC)) == BitsOf(op, Ld(s0.m, Ea(sp, VA)), Ld(s0.m, Ea(sp, VB)))
      && Ld(s.m, Ea(sp, VC + 1)) == BitsOf(op, Ld(s0.m, Ea(sp, VA + 1)), Ld(s0.m, Ea(sp, VB + 1)))
      && Ld(s.m, Ea(sp, VC + 2)) == BitsOf(op, Ld(s0.m, Ea(sp, VA + 2)), Ld(s0.m, Ea(sp, VB + 2)))
      && Ld(s.m, Ea(sp, VC + 3)) == BitsOf(op, Ld(s0.m, Ea(sp, VA + 3)), Ld(s0.m, Ea(sp, VB + 3)))
    ensures var s' := Exec([Lw(rd, VC, SP)], s);
      s'.m == s.m && OnlyRegs(s.r, s'.r, rd, rd, rd) && Rd(s'.r, rd) == BitsOf(op, a, b)
  {
    hide Exec, Rd, Set, Ld, Ea, BitsOf, B0, B1, B2, B3, W4;
    Exec1(Lw(rd, VC, SP), s);
    BytewiseLogic(op, a, b);
    WordSum(BitsOf(op, B0(a), B0(b)), BitsOf(op, B1(a), B1(b)), BitsOf(op, B2(a), B2(b)), BitsOf(op, B3(a), B3(b)));
  }
}
