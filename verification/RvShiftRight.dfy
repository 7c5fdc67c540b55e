/** Running srl, sra, srli, srai, and slli by any amount. */
module RvShiftRight {
  import opened Bits
  import opened RvMachine
  import opened RvTables
  import opened RvIsa
  import opened RvMacros
  import opened RvBasics
  import opened RvArith
  import opened RvLogic
  import opened RvEqual
  import opened RvShift
  import opened RvShiftMath

  /** The words B, C and D hold the entries of bytes 2, 1 and 0. */
  ghost predicate HoldsRows(m: Mem, sp: Word, y2: Word, y1: Word, y0: Word) {
    HoldsWord(m, sp, VB, y2) && HoldsWord(m, sp, VC, y1) && HoldsWord(m, sp, VD, y0)
  }

  /** One table word, kept in a scratch word. */
  lemma RowWordRuns(t: Tables, j: nat, k: int, off: int, x: Word, s: State)
    requires Ready(t, s) && j < 32 && Rd(s.r, S0) == RowOf(t, SrlOp, j) && 0 <= k < 4
    requires HoldsWord(s.m, Rd(s.r, SP), VA, x) && (off == VB || off == VC || off == VD)
    ensures var s', sp := Exec(GetShiftByte(S0, k) + [Sw(TP, off, SP)], s), Rd(s.r, SP);
      && OnlyRegs(s.r, s'.r, TP, TP, TP) && Touched(sp, s.m, s'.m, off, off + 4, 0, 0)
      && HoldsWord(s'.m, sp, off, Srl8(j, ByteOf(x, k))) && HoldsWord(s'.m, sp, VA, x) && Ready(t, s')
  {
    hide Rd, Exec, GetShiftByte, Ready, Touched, HoldsWord, RowOf, Step, Srl8, ByteOf;
    var sp := Rd(s.r, SP);
    var s1 := Exec(GetShiftByte(S0, k), s);
    EntryRuns(t, SrlOp, j, k, x, s);
    ExecAppend(GetShiftByte(S0, k), [Sw(TP, off, SP)], s);
    Exec1(Sw(TP, off, SP), s1);
    SwRuns(TP, off, s1);
    var s2 := Step(Sw(TP, off, SP), s1);
    TouchedWider(sp, s1.m, s2.m, off, off + 4, 0, 0, VD, VA, 0, 0);
    HoldsAbove(sp, s1.m, s2.m, VA, x);
    ReadyTouched(t, s1, s2, off, off + 4, 0, 0);
  }

  lemma HoldsAbove(sp: Word, m: Mem, m': Mem, off: int, v: Word)
    requires HoldsWord(m, sp, off, v) && Touched(sp, m, m', VD, VA, 0, 0) && VA <= off <= -4
    ensures HoldsWord(m', sp, off, v)
  {
    hide Ea, Ld, Scratch, B0, B1, B2, B3;
  }

  lemma HoldsApart(sp: Word, m: Mem, m': Mem, off: int, v: Word, lo: int)
    requires HoldsWord(m, sp, off, v) && Touched(sp, m, m', lo, lo + 4, 0, 0)
    requires -28 <= off <= -4 && (off >= lo + 4 || off + 4 <= lo)
    ensures HoldsWord(m', sp, off, v)
  {
    hide Ea, Ld, Scratch, B0, B1, B2, B3;
  }

  lemma ShiftWordsRuns(t: Tables, j: nat, x: Word, s: State)
    requires Ready(t, s) && j < 32 && Rd(s.r, S0) == RowOf(t, SrlOp, j) && HoldsWord(s.m, Rd(s.r, SP), VA, x)
    ensures var s', sp := Exec(ShiftWords(), s), Rd(s.r, SP);
      && OnlyRegs(s.r, s'.r, TP, TP, TP) && Touched(sp, s.m, s'.m, VD, VA, 0, 0) && Ready(t, s')
      && HoldsRows(s'.m, sp, Srl8(j, B2(x)), Srl8(j, B1(x)), Srl8(j, B0(x)))
  {
    hide Rd, Exec, GetShiftByte, Ready, Touched, HoldsWord, RowOf, B0, B1, B2, B3, Srl8;
    var sp := Rd(s.r, SP);
    var c2: Code := GetShiftByte(S0, 2) + [Sw(TP, VB, SP)];
    var c1: Code := GetShiftByte(S0, 1) + [Sw(TP, VC, SP)];
    var c0: Code := GetShiftByte(S0, 0) + [Sw(TP, VD, SP)];
    ShiftWordsCode();
    var s1 := Exec(c2, s);
    RowWordRuns(t, j, 2, VB, x, s);
    var s2 := Exec(c1, s1);
    RowWordRuns(t, j, 1, VC, x, s1);
    HoldsApart(sp, s1.m, s2.m, VB, Srl8(j, B2(x)), VC);
    var s3 := Exec(c0, s2);
    RowWordRuns(t, j, 0, VD, x, s2);
    HoldsApart(sp, s2.m, s3.m, VB, Srl8(j, B2(x)), VD);
    HoldsApart(sp, s2.m, s3.m, VC, Srl8(j, B1(x)), VD);
    Cat3(c2, c1, c0, s);
    TouchedWider(sp, s.m, s1.m, VB, VB + 4, 0, 0, VD, VA, 0, 0);
    TouchedWider(sp, s1.m, s2.m, VC, VC + 4, 0, 0, VD, VA, 0, 0);
    TouchedWider(sp, s2.m, s3.m, VD, VD + 4, 0, 0, VD, VA, 0, 0);
    TouchedTrans(sp, s.m, s1.m, s2.m, VD, VA, 0, 0);
    TouchedTrans(sp, s.m, s2.m, s3.m, VD, VA, 0, 0);
  }

  lemma ShiftWordsCode()
    ensures ShiftWords() == (GetShiftByte(S0, 2) + [Sw(TP, VB, SP)]) + (GetShiftByte(S0, 1) + [Sw(TP, VC, SP)]) +
                            (GetShiftByte(S0, 0) + [Sw(TP, VD, SP)])
  {
    hide GetShiftByte;
  }

  // ---- mixing ----

  function MixLow(): Code {
    [Lbu(GP, VB + 1, SP), Lbu(TP, VC + 2, SP), Add(GP, GP, TP), Lbu(TP, VD + 3, SP), Add(GP, GP, TP)]
  }

  lemma MixLowRuns(s: State, y2: Word, y1: Word, y0: Word)
    requires HoldsRows(s.m, Rd(s.r, SP), y2, y1, y0)
    ensures var s' := Exec(MixLow(), s);
      s'.m == s.m && OnlyRegs(s.r, s'.r, GP, TP, TP) && Rd(s'.r, GP) == B1(y2) + B2(y1) + B3(y0)
  {
    hide Exec, Rd, Set, Ld, Ea, B0, B1, B2, B3, Wrap;
    var c: Code, d: Code := [Lbu(GP, VB + 1, SP), Lbu(TP, VC + 2, SP), Add(GP, GP, TP)],
      [Lbu(TP, VD + 3, SP), Add(GP, GP, TP)];
    assert MixLow() == c + d;
    ExecAppend(c, d, s);
    var s1 := Exec(c, s);
    Exec3(Lbu(GP, VB + 1, SP), Lbu(TP, VC + 2, SP), Add(GP, GP, TP), s);
    Exec2(Lbu(TP, VD + 3, SP), Add(GP, GP, TP), s1);
    WrapSmall(B1(y2) + B2(y1));
    WrapSmall(B1(y2) + B2(y1) + B3(y0));
  }

  function MixMid(): Code {
    [Lbu(GP, VB + 2, SP), Lbu(TP, VC + 3, SP), Add(GP, GP, TP)]
  }

  lemma MixMidRuns(s: State, y2: Word, y1: Word)
    requires HoldsWord(s.m, Rd(s.r, SP), VB, y2) && HoldsWord(s.m, Rd(s.r, SP), VC, y1)
    ensures var s' := Exec(MixMid(), s);
      s'.m == s.m && OnlyRegs(s.r, s'.r, GP, TP, TP) && Rd(s'.r, GP) == B2(y2) + B3(y1)
  {
    hide Exec, Rd, Set, Ld, Ea, B0, B1, B2, B3, Wrap;
    Exec3(Lbu(GP, VB + 2, SP), Lbu(TP, VC + 3, SP), Add(GP, GP, TP), s);
    WrapSmall(B2(y2) + B3(y1));
  }

  lemma MixHighRuns(s: State, y2: Word, low: Word, mid: Byte)
    requires HoldsWord(s.m, Rd(s.r, SP), VB, y2)
    requires var sp := Rd(s.r, SP);
      Ld(s.m, Ea(sp, VD)) == B0(low) && Ld(s.m, Ea(sp, VD + 1)) == mid && Ld(s.m, Ea(sp, VD + 3)) == 0
    ensures var s', sp := Exec([Lbu(GP, VB + 3, SP), Sb(GP, VD + 2, SP), Lw(GP, VD, SP)], s), Rd(s.r, SP);
      && OnlyRegs(s.r, s'.r, GP, GP, GP) && Touched(sp, s.m, s'.m, VD, VD + 4, 0, 0)
      && Rd(s'.r, GP) == W4(B0(low), mid, B3(y2), 0)
  {
    hide Exec, Rd, Set, Ld, St, Ea, Scratch, B0, B1, B2, B3, W4;
    Exec3(Lbu(GP, VB + 3, SP), Sb(GP, VD + 2, SP), Lw(GP, VD, SP), s);
    ScratchFacts(Rd(s.r, SP));
    ByteWord(B3(y2));
  }

  lemma LowTop(w: Word)
    requires w < 0x300
    ensures B3(w) == 0
  {
  }

  lemma ShiftMixCode()
    ensures ShiftMix() == MixLow() + [Sw(GP, VD, SP)] + MixMid() + [Sb(GP, VD + 1, SP)] +
                          [Lbu(GP, VB + 3, SP), Sb(GP, VD + 2, SP), Lw(GP, VD, SP)]
  {
  }

  lemma ShiftMixRuns(t: Tables, s: State, y2: Word, y1: Word, y0: Word)
    requires Ready(t, s) && HoldsRows(s.m, Rd(s.r, SP), y2, y1, y0)
    ensures var s', sp := Exec(ShiftMix(), s), Rd(s.r, SP);
      && OnlyRegs(s.r, s'.r, GP, TP, TP) && Touched(sp, s.m, s'.m, VD, VA, 0, 0) && Ready(t, s')
      && Rd(s'.r, GP) == Mix(y2, y1, y0)
  {
    hide Rd, Exec, Ready, Touched, HoldsWord, Step, MixLow, MixMid, B0, B1, B2, B3, Ld, Ea, W4;
    var sp := Rd(s.r, SP);
    ShiftMixCode();
    var s1 := Exec(MixLow(), s);
    MixLowRuns(s, y2, y1, y0);
    var low: Word := B1(y2) + B2(y1) + B3(y0);
    var s2 := Step(Sw(GP, VD, SP), s1);
    Exec1(Sw(GP, VD, SP), s1);
    SwRuns(GP, VD, s1);
    HoldsApart(sp, s1.m, s2.m, VB, y2, VD);
    HoldsApart(sp, s1.m, s2.m, VC, y1, VD);
    var s3 := Exec(MixMid(), s2);
    MixMidRuns(s2, y2, y1);
    var s4 := Step(Sb(GP, VD + 1, SP), s3);
    Exec1(Sb(GP, VD + 1, SP), s3);
    SbRuns(GP, VD + 1, s3);
    TouchedWider(sp, s3.m, s4.m, VD + 1, VD + 2, 0, 0, VD, VD + 4, 0, 0);
    HoldsApart(sp, s3.m, s4.m, VB, y2, VD);
    MixBytes(sp, s2.m, s4.m, low);
    var c: Code := [Lbu(GP, VB + 3, SP), Sb(GP, VD + 2, SP), Lw(GP, VD, SP)];
    MixHighRuns(s4, y2, low, B0(B2(y2) + B3(y1)));
    var s5 := Exec(c, s4);
    Cat5(MixLow(), [Sw(GP, VD, SP)], MixMid(), [Sb(GP, VD + 1, SP)], c, s);
    TouchedTrans(sp, s1.m, s2.m, s4.m, VD, VD + 4, 0, 0);
    TouchedTrans(sp, s1.m, s4.m, s5.m, VD, VD + 4, 0, 0);
    TouchedWider(sp, s.m, s5.m, VD, VD + 4, 0, 0, VD, VA, 0, 0);
    ReadyTouched(t, s, s5, VD, VA, 0, 0);
  }

  lemma MixBytes(sp: Word, m: Mem, m': Mem, low: Word)
    requires HoldsWord(m, sp, VD, low) && low < 0x300 && Touched(sp, m, m', VD + 1, VD + 2, 0, 0)
    ensures Ld(m', Ea(sp, VD)) == B0(low) && Ld(m', Ea(sp, VD + 3)) == 0
  {
    hide Ea, Ld, Scratch, B0, B1, B2;
    LowTop(low);
  }

  // ---- the top byte ----

  function TopCode(arith: bool): Code {
    if arith then La(TP, SRA8 - SRL8) + [Add(S0, S0, TP)] else []
  }

  function TopOp(arith: bool): ShiftOp { if arith then SraOp else SrlOp }

  lemma TopRuns(t: Tables, j: nat, arith: bool, s: State)
    requires Ready(t, s) && j < 32 && Rd(s.r, S0) == RowOf(t, SrlOp, j)
    ensures var s' := Exec(TopCode(arith), s);
      && s'.m == s.m && OnlyRegs(s.r, s'.r, S0, TP, TP) && Rd(s'.r, S0) == RowOf(t, TopOp(arith), j) && Ready(t, s')
  {
    hide Rd, Exec, Ready, La, Wrap;
    if arith {
      var c := La(TP, SRA8 - SRL8);
      var s1 := Exec(c, s);
      LaRuns(TP, SRA8 - SRL8, s);
      ExecAppend(c, [Add(S0, S0, TP)], s);
      AddRuns(S0, S0, TP, s1);
      RowFits(t, SraOp, j, s);
      WrapSmall(RowOf(t, SraOp, j));
      ReadySame(t, s, Exec([Add(S0, S0, TP)], s1));
    } else {
      NoCode(s);
    }
  }

  lemma RowFits(t: Tables, op: ShiftOp, j: nat, s: State)
    requires Ready(t, s) && j < 32
    ensures 0 <= RowOf(t, op, j) && RowOf(t, op, j) + 1024 <= W32
  {
  }

  lemma ShiftTopRuns(t: Tables, j: nat, x: Word, rd: Reg, arith: bool, s: State)
    requires Ready(t, s) && j < 32 && Rd(s.r, S0) == RowOf(t, SrlOp, j) && HoldsWord(s.m, Rd(s.r, SP), VA, x) &&
      rd != SP
    ensures var s', v := Exec(ShiftTop(rd, arith), s), LdW(s.m, Rd(s.r, SP), V1);
      && s'.m == s.m && (forall i: Reg :: i !in {rd, S0, GP, TP} ==> Rd(s'.r, i) == Rd(s.r, i))
      && (rd !in {S0, GP} ==> Rd(s'.r, S0) == v && Rd(s'.r, GP) == Rd(s.r, GP))
      && (rd == GP ==> Rd(s'.r, S0) == v)
      && (rd != ZERO ==> Rd(s'.r, rd) == Wrap(Rd(s.r, GP) + Entry(TopOp(arith), j, B3(x))))
  {
    hide Rd, Exec, Ready, TopCode, GetShiftByte, Wrap, HoldsWord, LdW, RowOf, B0, B1, B2, B3, Entry;
    var s1 := Exec(TopCode(arith), s);
    TopRuns(t, j, arith, s);
    var s2 := Exec(GetShiftByte(S0, 3), s1);
    EntryRuns(t, TopOp(arith), j, 3, x, s1);
    var c: Code := [Lw(S0, V1, SP), Add(rd, GP, TP)];
    SllLowEnd(rd, s2);
    ShiftTopCode(rd, arith);
    Cat3(TopCode(arith), GetShiftByte(S0, 3), c, s);
  }

  lemma ShiftTopCode(rd: Reg, arith: bool)
    ensures ShiftTop(rd, arith) == TopCode(arith) + GetShiftByte(S0, 3) + [Lw(S0, V1, SP), Add(rd, GP, TP)]
  {
    hide GetShiftByte, La;
  }

  // ---- a whole right shift from its row ----

  lemma RightWord(x: Word, j: nat, arith: bool)
    requires j < 32
    ensures Wrap(Mix(Srl8(j, B2(x)), Srl8(j, B1(x)), Srl8(j, B0(x))) + Entry(TopOp(arith), j, B3(x))) ==
      ShiftedRight(x, j, arith)
  {
    hide Mix, Srl8, Sra8, B0, B1, B2, B3, Pow2, Wrap, Shr;
    SrlWord(x, j);
    SraWord(x, j);
  }

  lemma ShiftRightRowRuns(t: Tables, j: nat, x: Word, rd: Reg, arith: bool, was: Word, s: State)
    requires Ready(t, s) && j < 32 && Rd(s.r, S0) == RowOf(t, SrlOp, j) && rd != SP
    requires HoldsWord(s.m, Rd(s.r, SP), VA, x) && HoldsWord(s.m, Rd(s.r, SP), V1, was)
    ensures var s' := Exec(ShiftRightRow(rd, arith), s);
      && (forall i: Reg :: i !in {rd, S0, GP, TP} ==> Rd(s'.r, i) == Rd(s.r, i))
      && (rd != S0 ==> Rd(s'.r, S0) == was) && Kept(Rd(s.r, SP), s.m, s'.m)
      && (rd != ZERO ==> Rd(s'.r, rd) == ShiftedRight(x, j, arith))
  {
    hide Rd, Exec, Ready, ShiftWords, ShiftMix, ShiftTop, HoldsRows, Kept, Wrap, Mix, HoldsWord, RowOf, LdW, B0, B1,
      B2, B3,
      Srl8, Sra8, Entry, ShiftedRight, Touched;
    var sp := Rd(s.r, SP);
    var y2, y1, y0 := Srl8(j, B2(x)), Srl8(j, B1(x)), Srl8(j, B0(x));
    var s1 := Exec(ShiftWords(), s);
    ShiftWordsRuns(t, j, x, s);
    HoldsAbove(sp, s.m, s1.m, VA, x);
    HoldsAbove(sp, s.m, s1.m, V1, was);
    TouchedKept(sp, s.m, s1.m, VD, VA, 0, 0);
    var s2 := Exec(ShiftMix(), s1);
    ShiftMixRuns(t, s1, y2, y1, y0);
    HoldsAbove(sp, s1.m, s2.m, VA, x);
    HoldsAbove(sp, s1.m, s2.m, V1, was);
    TouchedKept(sp, s1.m, s2.m, VD, VA, 0, 0);
    ShiftTopRuns(t, j, x, rd, arith, s2);
    LoadsBack(s2.m, sp, V1, was);
    KeptTrans(sp, s.m, s1.m, s2.m);
    Cat3(ShiftWords(), ShiftMix(), ShiftTop(rd, arith), s);
    RightWord(x, j, arith);
  }

  /** srl and sra shift by the low five bits of the second operand. */
  lemma ShiftRightRuns(t: Tables, rd: Reg, rs1: Reg, rs2: Reg, arith: bool, s: State)
    requires Ready(t, s) && rd != SP
    ensures var s' := Exec(ShiftRight(t, rd, rs1, rs2, arith), s);
      && OnlyRegs(s.r, s'.r, rd, TP, GP) && Kept(Rd(s.r, SP), s.m, s'.m)
      && (rd != ZERO ==> Rd(s'.r, rd) == ShiftedRight(Rd(s.r, rs1), Amount(Rd(s.r, rs2)), arith))
  {
    hide Rd, Exec, Ready, HoldsWord, ShiftRow, Wrap, Amount, ShiftRightRow, RowOf, Kept, ShiftedRight;
    var sp, table := Rd(s.r, SP), Wrap(t.lst + SRL8);
    var c: Code := [Sw(S0, V1, SP), Sw(rs1, VA, SP)] + ShiftRow(t, rs2, table);
    var s1 := Exec(c, s);
    ShiftRowStart(t, SrlOp, rs1, rs2, s);
    AmountSmall(Rd(s.r, rs2));
    ShiftRightRowRuns(t, Amount(Rd(s.r, rs2)), Rd(s.r, rs1), rd, arith, Rd(s.r, S0), s1);
    ExecAppend(c, ShiftRightRow(rd, arith), s);
    KeptTrans(sp, s.m, s1.m, Exec(ShiftRightRow(rd, arith), s1).m);
  }

  // ---- shifts by a constant ----

  lemma FastSrai(t: Tables, rd: Reg, rs1: Reg, s: State)
    requires Ready(t, s) && rd != SP && rd != TP && rd != ZERO
    ensures var s' := Exec(ShiftRightImm(t, rd, rs1, 24, true), s);
      && OnlyRegs(s.r, s'.r, rd, TP, TP) && Kept(Rd(s.r, SP), s.m, s'.m)
      && Rd(s'.r, rd) == Sra8(24, B3(Rd(s.r, rs1)))
  {
    hide Rd, Set, Exec, Ready, HoldsWord, Wrap, Kept, La, Slli, Touched, LdW, Ld, Ea, B0, B1, B2, B3, Sra8, Pow2;
    var sp, x := Rd(s.r, SP), Rd(s.r, rs1);
    var a := Wrap(t.lst + SRA8 + 24 * 1024);
    var s1 := Exec([Sw(rs1, VA, SP)], s);
    StoreA(t, rs1, s);
    var s2 := Exec(La(TP, a), s1);
    LaRuns(TP, a, s1);
    var s3 := Exec([Lbu(rd, VA + 3, SP)], s2);
    LoadTop(rd, x, s2);
    var s4 := Exec(Slli(rd, rd, 2), s3);
    SlliSmallRuns(rd, rd, 2, s3);
    var b: Byte := B3(x);
    EntryAt(t, b, s1);
    Exec2(Add(TP, TP, rd), Lw(rd, 0, TP), s4);
    assert Rd(Step(Add(TP, TP, rd), s4).r, TP) == a + 4 * b;
    ExecAppend([Sw(rs1, VA, SP)] + La(TP, a) + [Lbu(rd, VA + 3, SP)] + Slli(rd, rd, 2),
      [Add(TP, TP, rd), Lw(rd, 0, TP)], s);
    Cat4([Sw(rs1, VA, SP)], La(TP, a), [Lbu(rd, VA + 3, SP)], Slli(rd, rd, 2), s);
  }

  lemma StoreA(t: Tables, rs: Reg, s: State)
    requires Ready(t, s)
    ensures var s', sp := Exec([Sw(rs, VA, SP)], s), Rd(s.r, SP);
      s'.r == s.r && HoldsWord(s'.m, sp, VA, Rd(s.r, rs)) && Kept(sp, s.m, s'.m) && Ready(t, s')
  {
    hide Rd, Exec, Ready, HoldsWord, Step, Touched, Kept;
    Exec1(Sw(rs, VA, SP), s);
    SwRuns(rs, VA, s);
    TouchedKept(Rd(s.r, SP), s.m, Step(Sw(rs, VA, SP), s).m, VA, VA + 4, 0, 0);
    ReadyTouched(t, s, Step(Sw(rs, VA, SP), s), VA, VA + 4, 0, 0);
  }

  lemma LoadTop(rd: Reg, x: Word, s: State)
    requires HoldsWord(s.m, Rd(s.r, SP), VA, x) && rd != ZERO
    ensures var s' := Exec([Lbu(rd, VA + 3, SP)], s);
      s'.m == s.m && OnlyRegs(s.r, s'.r, rd, rd, rd) && Rd(s'.r, rd) == B3(x)
  {
    hide Rd, Set, Exec, Ld, Ea, B0, B1, B2, B3;
    Exec1(Lbu(rd, VA + 3, SP), s);
  }

  lemma EntryAt(t: Tables, b: Byte, s: State)
    requires Ready(t, s)
    ensures var a := Wrap(t.lst + SRA8 + 24 * 1024);
      Wrap(b * Pow2(2)) == 4 * b && Wrap(a + 4 * b) == a + 4 * b && a + 4 * b < W32 &&
        LdW(s.m, a + 4 * b, 0) == Sra8(24, b)
  {
    hide LdW, Sra8, Pow2, Ready;
    ReadyParts(t, s);
    EntryLoaded(t, s.m, SraOp, 24, b);
    WrapSmall(t.lst + SRA8 + 24 * 1024);
    ByteIndex(RowOf(t, SraOp, 24), b);
  }

  lemma FastSrli(rd: Reg, rs1: Reg, s: State)
    requires rd != SP && rd != ZERO
    ensures var s' := Exec(GetByte(rd, rs1, 3), s);
      && OnlyRegs(s.r, s'.r, rd, rd, rd) && Kept(Rd(s.r, SP), s.m, s'.m) && Rd(s'.r, rd) == B3(Rd(s.r, rs1))
  {
    hide Rd, Exec, GetByte, Kept, Touched, B0, B1, B2, B3;
    GetByteRuns(rd, rs1, 3, s);
    TouchedKept(Rd(s.r, SP), s.m, Exec(GetByte(rd, rs1, 3), s).m, VC, VC + 4, 0, 0);
  }

  lemma LaRowRuns(t: Tables, rs1: Reg, imm: nat, s: State)
    requires Ready(t, s) && imm < 32
    ensures var c: Code := [Sw(S0, V1, SP), Sw(rs1, VA, SP)] + La(S0, Wrap(t.lst + SRL8 + imm * 1024));
      var s', sp := Exec(c, s), Rd(s.r, SP);
      && OnlyRegs(s.r, s'.r, S0, S0, S0) && Rd(s'.r, S0) == RowOf(t, SrlOp, imm) && Kept(sp, s.m, s'.m) && Ready(t, s')
      && HoldsWord(s'.m, sp, VA, Rd(s.r, rs1)) && HoldsWord(s'.m, sp, V1, Rd(s.r, S0))
  {
    hide Rd, Exec, Ready, HoldsWord, Wrap, Touched, La, Kept;
    var c: Code := [Sw(S0, V1, SP), Sw(rs1, VA, SP)];
    var a := Wrap(t.lst + SRL8 + imm * 1024);
    var s1 := Exec(c, s);
    ShiftStart(rs1, s);
    TouchedKept(Rd(s.r, SP), s.m, s1.m, VA, VA + 4, V1, 0);
    ReadyTouched(t, s, s1, VA, VA + 4, V1, 0);
    LaRuns(S0, a, s1);
    RowFits(t, SrlOp, imm, s);
    WrapSmall(t.lst + SRL8 + imm * 1024);
    ExecAppend(c, La(S0, a), s);
    ReadySame(t, s1, Exec(La(S0, a), s1));
  }

  /** srli and srai, with the short expansions for a shift by 24. */
  lemma ShiftRightImmRuns(t: Tables, rd: Reg, rs1: Reg, imm: nat, arith: bool, s: State)
    requires Ready(t, s) && rd != SP && rd != TP && rd != ZERO && imm < 32
    ensures var s' := Exec(ShiftRightImm(t, rd, rs1, imm, arith), s);
      && OnlyRegs(s.r, s'.r, rd, TP, GP) && Kept(Rd(s.r, SP), s.m, s'.m)
      && Rd(s'.r, rd) == ShiftedRight(Rd(s.r, rs1), imm, arith)
  {
    hide Rd, Exec, Ready, HoldsWord, Wrap, ShiftRightRow, RowOf, Kept, La, Slli, GetByte, Sra8, Pow2, Shr, B3;
    if imm == 24 {
      SraTop(Rd(s.r, rs1));
      if arith {
        FastSrai(t, rd, rs1, s);
      } else {
        FastSrli(rd, rs1, s);
        WrapSmall(B3(Rd(s.r, rs1)));
      }
    } else {
      var c: Code := [Sw(S0, V1, SP), Sw(rs1, VA, SP)] + La(S0, Wrap(t.lst + SRL8 + imm * 1024));
      var s1 := Exec(c, s);
      LaRowRuns(t, rs1, imm, s);
      ShiftRightRowRuns(t, imm, Rd(s.r, rs1), rd, arith, Rd(s.r, S0), s1);
      ExecAppend(c, ShiftRightRow(rd, arith), s);
      KeptTrans(Rd(s.r, SP), s.m, s1.m, Exec(ShiftRightRow(rd, arith), s1).m);
    }
  }
}
