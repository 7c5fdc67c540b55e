/** Running the shifts through their per-byte tables. */
module RvShift {
  import opened Bits
  import opened RvMachine
  import opened RvTables
  import opened RvMacros
  import opened RvBasics
  import opened RvArith
  import opened RvLogic
  import opened RvEqual

  /** The amount that a register gives a shift. */
  function Amount(w: Word): nat { w % 32 }

  lemma ShamtEntry(t: Tables, m: Mem, w: Word)
    requires Placed(t) && Loaded(t, m)
    ensures var a := t.lst + 0x1f00 + B0(w);
      Wrap(t.lst + (0x1f * 256)) == t.lst + 0x1f00 && Wrap(B0(w) + (t.lst + 0x1f00)) == a && Ea(a, 0) == a &&
      a < W32 && Ld(m, a) == Amount(w)
  {
    hide Ld, BitAnd, Pow2, Wrap, B0;
    assert AndLoaded(t, m, 0x1f, B0(w));
    AmountOfByte(w);
    AndComm(0x1f, B0(w));
    Pow2Small();
    AndOnes(B0(w), 5);
    WrapSmall(t.lst + 0x1f00);
    WrapSmall(t.lst + 0x1f00 + B0(w));
  }

  /** The low byte decides the amount. */
  lemma AmountOfByte(w: Word)
    ensures B0(w) % 32 == Amount(w)
  {
    ModAdd(w % 0x100, 8 * (w / 0x100), 32);
  }

  lemma Pow2Small()
    ensures Pow2(1) == 2 && Pow2(2) == 4 && Pow2(5) == 32
  {
  }

  lemma GetShamtRuns(t: Tables, rs: Reg, s: State)
    requires Ready(t, s)
    ensures var s', sp := Exec(GetShamt(t, S0, rs), s), Rd(s.r, SP);
      && OnlyRegs(s.r, s'.r, S0, TP, TP) && Rd(s'.r, S0) == Amount(Rd(s.r, rs))
      && Touched(sp, s.m, s'.m, VB, VB + 4, 0, 0) && Ready(t, s')
  {
    hide Exec, Rd, Set, Ld, St, Ea, Scratch, Wrap, Ready, B0, Amount;
    var sp, w := Rd(s.r, SP), Rd(s.r, rs);
    var c: Code := [Sb(rs, VB, SP), Lbu(S0, VB, SP)];
    var s1 := Exec(c, s);
    Exec2(Sb(rs, VB, SP), Lbu(S0, VB, SP), s);
    ScratchFacts(sp);
    ReadyTouched(t, s, s1, VB, VB + 4, 0, 0);
    ReadyParts(t, s1);
    ShamtEntry(t, s1.m, w);
    var a := Wrap(t.lst + (0x1f * 256));
    LaRuns(TP, a, s1);
    var s2 := Exec(La(TP, a), s1);
    var s3 := Step(Add(S0, S0, TP), s2);
    assert Rd(s3.r, S0) == t.lst + 0x1f00 + B0(w);
    Exec2(Add(S0, S0, TP), Lbu(S0, 0, S0), s2);
    Cat3(c, La(TP, a), [Add(S0, S0, TP), Lbu(S0, 0, S0)], s);
    ReadySame(t, s1, Exec(GetShamt(t, S0, rs), s));
  }

  /** The row address is table + 1024 * amount. */
  lemma RowAddress(table: Word, j: nat)
    requires j < 32 && table + 0x8000 <= W32
    ensures W4(0, j, 0, 0) == 256 * j
    ensures Wrap(256 * j * Pow2(2)) == 1024 * j
    ensures Wrap(1024 * j + table) == table + 1024 * j
  {
    Pow2Small();
    WordSum(0, j, 0, 0);
    WrapSmall(1024 * j);
    WrapSmall(1024 * j + table);
  }

  lemma ShamtWord(s: State)
    requires Rd(s.r, S0) < 32
    ensures var s', sp := Exec([Sw(ZERO, VB, SP), Sb(S0, VB + 1, SP), Lw(S0, VB, SP)], s), Rd(s.r, SP);
      && OnlyRegs(s.r, s'.r, S0, S0, S0) && Rd(s'.r, S0) == W4(0, Rd(s.r, S0), 0, 0)
      && Touched(sp, s.m, s'.m, VB, VB + 4, 0, 0)
  {
    hide Exec, Rd, Set, Ld, St, Ea, Scratch, W4, B0, B1, B2, B3;
    Exec3(Sw(ZERO, VB, SP), Sb(S0, VB + 1, SP), Lw(S0, VB, SP), s);
    ScratchFacts(Rd(s.r, SP));
    ReadZero(s.r);
    ZeroIsZero();
    ByteWord(Rd(s.r, S0));
  }

  lemma ShiftRowRuns(t: Tables, rs: Reg, table: Word, s: State)
    requires Ready(t, s) && table + 0x8000 <= W32
    ensures var s', sp := Exec(ShiftRow(t, rs, table), s), Rd(s.r, SP);
      && OnlyRegs(s.r, s'.r, S0, TP, TP) && Rd(s'.r, S0) == table + 1024 * Amount(Rd(s.r, rs))
      && Touched(sp, s.m, s'.m, VB, VB + 4, 0, 0) && Ready(t, s')
  {
    hide Rd, Set, Exec, Touched, Ready, GetShamt, Slli, La, W4, Wrap, Pow2;
    var sp, j := Rd(s.r, SP), Amount(Rd(s.r, rs));
    var s1 := Exec(GetShamt(t, S0, rs), s);
    GetShamtRuns(t, rs, s);
    var c: Code := [Sw(ZERO, VB, SP), Sb(S0, VB + 1, SP), Lw(S0, VB, SP)];
    var s2 := Exec(c, s1);
    ShamtWord(s1);
    RowAddress(table, j);
    var s3 := Exec(Slli(S0, S0, 2), s2);
    SlliSmallRuns(S0, S0, 2, s2);
    LaRuns(TP, table, s3);
    Exec1(Add(S0, S0, TP), Exec(La(TP, table), s3));
    Cat5(GetShamt(t, S0, rs), c, Slli(S0, S0, 2), La(TP, table), [Add(S0, S0, TP)], s);
    var s' := Exec(ShiftRow(t, rs, table), s);
    TouchedTrans(sp, s.m, s1.m, s'.m, VB, VB + 4, 0, 0);
    ReadyTouched(t, s, s', VB, VB + 4, 0, 0);
  }

  lemma ByteIndex(base: Word, b: Byte)
    requires base + 1024 <= W32
    ensures Wrap(b * Pow2(2)) == 4 * b && Wrap(base + 4 * b) == base + 4 * b && base + 4 * b < W32
  {
    Pow2Small();
    WrapSmall(4 * b);
    WrapSmall(base + 4 * b);
  }

  lemma GetShiftByteRuns(base: Reg, k: int, s: State)
    requires 0 <= k < 4 && base != TP && base != SP && Rd(s.r, base) + 1024 <= W32
    ensures var s', b := Exec(GetShiftByte(base, k), s), Ld(s.m, Ea(Rd(s.r, SP), VA + k));
      && s'.m == s.m && OnlyRegs(s.r, s'.r, TP, TP, TP)
      && Rd(s'.r, TP) == LdW(s.m, Rd(s.r, base) + 4 * b, 0)
  {
    hide Exec, Rd, Set, Ld, LdW, Ea, Wrap, Slli, Pow2;
    var b: int := Ld(s.m, Ea(Rd(s.r, SP), VA + k));
    Exec1(Lbu(TP, VA + k, SP), s);
    var s1 := Step(Lbu(TP, VA + k, SP), s);
    var s2 := Exec(Slli(TP, TP, 2), s1);
    SlliSmallRuns(TP, TP, 2, s1);
    ByteIndex(Rd(s.r, base), b);
    Exec2(Add(TP, base, TP), Lw(TP, 0, TP), s2);
    var a: int := Rd(s.r, base) + 4 * b;
    assert Rd(Step(Add(TP, base, TP), s2).r, TP) == a;
    EaZero(a);
    Cat3([Lbu(TP, VA + k, SP)], Slli(TP, TP, 2), [Add(TP, base, TP), Lw(TP, 0, TP)], s);
  }

  // ---- rows of the three shift tables ----

  datatype ShiftOp = SllOp | SrlOp | SraOp

  function RowsOf(op: ShiftOp): nat {
    match op
    case SllOp => SLL8
    case SrlOp => SRL8
    case SraOp => SRA8
  }

  /** The address of the row for amount j. */
  function RowOf(t: Tables, op: ShiftOp, j: nat): int { t.lst + RowsOf(op) + 1024 * j }

  /** What the row for amount j holds for byte b. */
  function Entry(op: ShiftOp, j: nat, b: Byte): Word {
    match op
    case SllOp => Sll8(j, b)
    case SrlOp => Srl8(j, b)
    case SraOp => Sra8(j, b)
  }

  lemma EntryLoaded(t: Tables, m: Mem, op: ShiftOp, j: nat, b: Byte)
    requires Placed(t) && Loaded(t, m) && j < 32
    ensures var a := RowOf(t, op, j); 0 <= a && a + 1024 <= W32 && LdW(m, a + 4 * b, 0) == Entry(op, j, b)
  {
    hide LdW, Sll8, Srl8, Sra8;
    assert SllLoaded(t, m, j, b) && SrlLoaded(t, m, j, b) && SraLoaded(t, m, j, b);
  }

  /** get_shift_byte_in_tp fetches the entry for one byte of x. */
  lemma EntryRuns(t: Tables, op: ShiftOp, j: nat, k: int, x: Word, s: State)
    requires Ready(t, s) && j < 32 && Rd(s.r, S0) == RowOf(t, op, j) && 0 <= k < 4
    requires HoldsWord(s.m, Rd(s.r, SP), VA, x)
    ensures var s' := Exec(GetShiftByte(S0, k), s);
      && s'.m == s.m && OnlyRegs(s.r, s'.r, TP, TP, TP) && Rd(s'.r, TP) == Entry(op, j, ByteOf(x, k)) && Ready(t, s')
  {
    hide Rd, Exec, GetShiftByte, Ready, RowOf, Entry, LdW, B0, B1, B2, B3, Ld, Ea;
    ReadyParts(t, s);
    EntryLoaded(t, s.m, op, j, ByteOf(x, k));
    GetShiftByteRuns(S0, k, s);
    ReadySame(t, s, Exec(GetShiftByte(S0, k), s));
  }

  // ---- sll ----

  lemma SllHighEnd(s: State)
    requires HoldsWord(s.m, Rd(s.r, SP), VB, 0)
    ensures var s', sp := Exec([Sb(TP, VB + 3, SP), Lw(GP, VB, SP)], s), Rd(s.r, SP);
      && OnlyRegs(s.r, s'.r, GP, GP, GP) && Rd(s'.r, GP) == W4(0, 0, 0, B0(Rd(s.r, TP)))
      && Touched(sp, s.m, s'.m, VC, VA, 0, 0) && Ld(s'.m, Ea(sp, VB)) == 0 && Ld(s'.m, Ea(sp, VB + 1)) == 0
  {
    hide Exec, Rd, Set, Ld, St, Ea, Scratch, W4, B0, B1, B2, B3;
    Exec2(Sb(TP, VB + 3, SP), Lw(GP, VB, SP), s);
    ScratchFacts(Rd(s.r, SP));
    ZeroIsZero();
  }

  lemma HoldsKept(sp: Word, m: Mem, m': Mem, off: int, v: Word)
    requires HoldsWord(m, sp, off, v) && Touched(sp, m, m', VC, VA, 0, 0) && VA <= off <= -4
    ensures HoldsWord(m', sp, off, v)
  {
    hide Ea, Ld, Scratch, B0, B1, B2, B3;
  }

  lemma SllHighRuns(t: Tables, j: nat, x: Word, s: State)
    requires Ready(t, s) && j < 32 && Rd(s.r, S0) == RowOf(t, SllOp, j) && HoldsWord(s.m, Rd(s.r, SP), VA, x)
    ensures var s', sp := Exec(SllHigh(), s), Rd(s.r, SP);
      && OnlyRegs(s.r, s'.r, GP, TP, TP) && Rd(s'.r, GP) == W4(0, 0, 0, B0(Sll8(j, B3(x))))
      && Touched(sp, s.m, s'.m, VC, VA, 0, 0) && Ld(s'.m, Ea(sp, VB)) == 0 && Ld(s'.m, Ea(sp, VB + 1)) == 0
      && Ready(t, s')
  {
    hide Rd, Ld, Ea, Exec, GetShiftByte, Ready, Touched, HoldsWord, RowOf, W4, B0, B1, B2, B3, Step, Sll8;
    var sp := Rd(s.r, SP);
    var s1 := Step(Sw(ZERO, VB, SP), s);
    Exec1(Sw(ZERO, VB, SP), s);
    SwRuns(ZERO, VB, s);
    ReadZero(s.r);
    TouchedWider(sp, s.m, s1.m, VB, VB + 4, 0, 0, VC, VA, 0, 0);
    HoldsKept(sp, s.m, s1.m, VA, x);
    ReadyTouched(t, s, s1, VC, VA, 0, 0);
    var s2 := Exec(GetShiftByte(S0, 3), s1);
    EntryRuns(t, SllOp, j, 3, x, s1);
    var c: Code := [Sb(TP, VB + 3, SP), Lw(GP, VB, SP)];
    SllHighEnd(s2);
    Cat3([Sw(ZERO, VB, SP)], GetShiftByte(S0, 3), c, s);
    var s3 := Exec(c, s2);
    TouchedTrans(sp, s.m, s1.m, s3.m, VC, VA, 0, 0);
    ReadyTouched(t, s, s3, VC, VA, 0, 0);
  }

  /** sh into the upper half of a scratch word whose lower half is zero. */
  lemma ShScratch(rs: Reg, off: int, s: State)
    requires off == VA || off == VB
    requires Ld(s.m, Ea(Rd(s.r, SP), off)) == 0 && Ld(s.m, Ea(Rd(s.r, SP), off + 1)) == 0
    ensures var s', sp, w := Exec(Sh(rs, off + 2, SP), s), Rd(s.r, SP), Rd(s.r, rs);
      && OnlyRegs(s.r, s'.r, TP, TP, TP) && Touched(sp, s.m, s'.m, VC, VC + 4, off, off + 4)
      && LdW(s'.m, sp, off) == W4(0, 0, B0(w), B1(w))
  {
    hide Exec, Rd, Set, Ld, St, Ea, Scratch, B0, B1, B2, B3, W4;
    var sp, w := Rd(s.r, SP), Rd(s.r, rs);
    Exec4(Sb(rs, off + 2, SP), Sw(rs, VC, SP), Lbu(TP, VC + 1, SP), Sb(TP, off + 3, SP), s);
    assert Sh(rs, off + 2, SP) == [Sb(rs, off + 2, SP), Sw(rs, VC, SP), Lbu(TP, VC + 1, SP), Sb(TP, off + 3, SP)];
    ScratchFacts(sp);
    ByteWord(B1(w));
  }

  lemma SllMidEnd(s: State, v: Word)
    requires LdW(s.m, Rd(s.r, SP), VB) == v
    ensures var s' := Exec([Lw(TP, VB, SP), Add(GP, GP, TP)], s);
      && s'.m == s.m && OnlyRegs(s.r, s'.r, GP, TP, TP) && Rd(s'.r, GP) == Wrap(Rd(s.r, GP) + v)
  {
    hide Exec, Rd, Set, LdW, Wrap;
    Exec2(Lw(TP, VB, SP), Add(GP, GP, TP), s);
  }

  lemma SllMidRuns(t: Tables, j: nat, x: Word, s: State)
    requires Ready(t, s) && j < 32 && Rd(s.r, S0) == RowOf(t, SllOp, j) && HoldsWord(s.m, Rd(s.r, SP), VA, x)
    requires var sp := Rd(s.r, SP); Ld(s.m, Ea(sp, VB)) == 0 && Ld(s.m, Ea(sp, VB + 1)) == 0
    ensures var s', sp, y := Exec(SllMid(), s), Rd(s.r, SP), Sll8(j, B2(x));
      && OnlyRegs(s.r, s'.r, GP, TP, TP) && Rd(s'.r, GP) == Wrap(Rd(s.r, GP) + W4(0, 0, B0(y), B1(y)))
      && Touched(sp, s.m, s'.m, VC, VA, 0, 0) && Ready(t, s')
  {
    hide Rd, Ld, Ea, Exec, GetShiftByte, Ready, Touched, HoldsWord, RowOf, W4, LdW, B0, B1, B2, B3, Sh, Sll8, Wrap;
    var sp := Rd(s.r, SP);
    var s1 := Exec(GetShiftByte(S0, 2), s);
    EntryRuns(t, SllOp, j, 2, x, s);
    var s2 := Exec(Sh(TP, VB + 2, SP), s1);
    ShScratch(TP, VB, s1);
    TouchedWider(sp, s1.m, s2.m, VC, VC + 4, VB, VB + 4, VC, VA, 0, 0);
    var y := Sll8(j, B2(x));
    var c: Code := [Lw(TP, VB, SP), Add(GP, GP, TP)];
    SllMidEnd(s2, W4(0, 0, B0(y), B1(y)));
    Cat3(GetShiftByte(S0, 2), Sh(TP, VB + 2, SP), c, s);
    ReadyTouched(t, s, Exec(c, s2), VC, VA, 0, 0);
  }

  lemma SllLowEnd(rd: Reg, s: State)
    requires rd != SP
    ensures var s', v := Exec([Lw(S0, V1, SP), Add(rd, GP, TP)], s), LdW(s.m, Rd(s.r, SP), V1);
      && s'.m == s.m && OnlyRegs(s.r, s'.r, rd, S0, S0) && (rd != S0 ==> Rd(s'.r, S0) == v)
      && (rd != ZERO ==> Rd(s'.r, rd) == Wrap(Rd(s.r, GP) + Rd(s.r, TP)))
  {
    hide Exec, Rd, Set, LdW, Wrap;
    Exec2(Lw(S0, V1, SP), Add(rd, GP, TP), s);
  }

  lemma SllLowRuns(t: Tables, j: nat, x: Word, rd: Reg, s: State)
    requires Ready(t, s) && j < 32 && Rd(s.r, S0) == RowOf(t, SllOp, j) && HoldsWord(s.m, Rd(s.r, SP), VA, x) &&
      rd != SP
    ensures var s', v := Exec(SllLow(rd), s), LdW(s.m, Rd(s.r, SP), V1);
      && s'.m == s.m && (forall i: Reg :: i !in {rd, S0, GP, TP} ==> Rd(s'.r, i) == Rd(s.r, i))
      && (rd != S0 ==> Rd(s'.r, S0) == v)
      && (rd != ZERO ==> Rd(s'.r, rd) == Wrap(Wrap(Rd(s.r, GP) + Wrap(Sll8(j, B1(x)) * Pow2(8))) + Sll8(j, B0(x))))
  {
    hide Rd, Exec, GetShiftByte, Ready, HoldsWord, RowOf, LdW, B0, B1, B2, B3, Sll8, Wrap, Pow2, Slli;
    var s1 := Exec(GetShiftByte(S0, 1), s);
    EntryRuns(t, SllOp, j, 1, x, s);
    var s2 := Exec(Slli(TP, TP, 8), s1);
    SlliSmallRuns(TP, TP, 8, s1);
    var s3 := Exec([Add(GP, GP, TP)], s2);
    AddRuns(GP, GP, TP, s2);
    ReadySame(t, s, s3);
    var s4 := Exec(GetShiftByte(S0, 0), s3);
    EntryRuns(t, SllOp, j, 0, x, s3);
    var c: Code := [Lw(S0, V1, SP), Add(rd, GP, TP)];
    SllLowEnd(rd, s4);
    Cat5(GetShiftByte(S0, 1), Slli(TP, TP, 8), [Add(GP, GP, TP)], GetShiftByte(S0, 0), c, s);
  }

  lemma AddRuns(rd: Reg, rs1: Reg, rs2: Reg, s: State)
    requires rd != ZERO
    ensures var s' := Exec([Add(rd, rs1, rs2)], s);
      s'.m == s.m && OnlyRegs(s.r, s'.r, rd, rd, rd) && Rd(s'.r, rd) == Wrap(Rd(s.r, rs1) + Rd(s.r, rs2))
  {
    hide Exec, Rd, Set, Wrap;
    Exec1(Add(rd, rs1, rs2), s);
  }

  /** Modular sums may be wrapped in any order. */
  lemma WrapBoth(x: int, y: int)
    ensures Wrap(Wrap(x) + Wrap(y)) == Wrap(x + y)
  {
    WrapTwice(x, Wrap(y));
    WrapTwice(y, x);
  }

  lemma HighByte(y: Word)
    ensures W4(0, 0, 0, B0(y)) == Wrap(y * 0x100_0000)
  {
    WordSum(0, 0, 0, B0(y));
    assert y * 0x100_0000 == W32 * (y / 0x100) + y % 0x100 * 0x100_0000;
    WrapAround(y % 0x100 * 0x100_0000, y / 0x100);
  }

  lemma HighHalf(y: Word)
    ensures W4(0, 0, B0(y), B1(y)) == Wrap(y * 0x1_0000)
  {
    WordSum(0, 0, B0(y), B1(y));
    assert y / 0x100 == 0x100 * (y / 0x100 / 0x100) + B1(y);
    assert y * 0x1_0000 == W32 * (y / 0x100 / 0x100) + (B1(y) * 0x100 + B0(y)) * 0x1_0000;
    WrapAround((B1(y) * 0x100 + B0(y)) * 0x1_0000, y / 0x100 / 0x100);
  }

  /** Left shift is linear modulo 2^32, so the four byte contributions add up. */
  lemma SllSum(c0: nat, c1: nat, c2: nat, c3: nat)
    ensures var y1, y2, y3 := Wrap(c1), Wrap(c2), Wrap(c3);
      Wrap(Wrap(Wrap(W4(0, 0, 0, B0(y3)) + W4(0, 0, B0(y2), B1(y2))) + Wrap(y1 * 0x100)) + Wrap(c0))
        == Wrap(c0 + 0x100 * c1 + 0x1_0000 * c2 + 0x100_0000 * c3)
  {
    hide Wrap, W4, B0, B1;
    HighByte(Wrap(c3));
    HighHalf(Wrap(c2));
    WrapMul(c3, 0x100_0000);
    WrapMul(c2, 0x1_0000);
    WrapMul(c1, 0x100);
    WrapBoth(c3 * 0x100_0000, c2 * 0x1_0000);
    WrapBoth(c3 * 0x100_0000 + c2 * 0x1_0000, c1 * 0x100);
    WrapBoth(c3 * 0x100_0000 + c2 * 0x1_0000 + c1 * 0x100, c0);
  }

  lemma SllWord(x: Word, j: nat)
    ensures var y0, y1, y2, y3 := Sll8(j, B0(x)), Sll8(j, B1(x)), Sll8(j, B2(x)), Sll8(j, B3(x));
      Wrap(Wrap(Wrap(W4(0, 0, 0, B0(y3)) + W4(0, 0, B0(y2), B1(y2))) + Wrap(y1 * Pow2(8))) + y0) == Wrap(x * Pow2(j))
  {
    hide W4, B0, B1, B2, B3, Pow2;
    var p := Pow2(j);
    Pow2Values();
    SllSum(B0(x) * p, B1(x) * p, B2(x) * p, B3(x) * p);
    FourBytes(x);
    BytesTimes(B0(x), B1(x), B2(x), B3(x), p);
  }

  lemma BytesTimes(b0: Byte, b1: Byte, b2: Byte, b3: Byte, p: nat)
    ensures W4(b0, b1, b2, b3) * p == b0 * p + 0x100 * (b1 * p) + 0x1_0000 * (b2 * p) + 0x100_0000 * (b3 * p)
  {
    WordSum(b0, b1, b2, b3);
  }

  lemma ShiftStart(rs1: Reg, s: State)
    ensures var s', sp := Exec([Sw(S0, V1, SP), Sw(rs1, VA, SP)], s), Rd(s.r, SP);
      && s'.r == s.r && Touched(sp, s.m, s'.m, VA, VA + 4, V1, 0)
      && HoldsWord(s'.m, sp, VA, Rd(s.r, rs1)) && HoldsWord(s'.m, sp, V1, Rd(s.r, S0))
  {
    hide Exec, Rd, Ld, Ea, Scratch, B0, B1, B2, B3, Step;
    Exec2(Sw(S0, V1, SP), Sw(rs1, VA, SP), s);
    SwRuns(S0, V1, s);
    SwRuns(rs1, VA, Step(Sw(S0, V1, SP), s));
  }

  /** From the operands to the row address, both right and left. */
  lemma ShiftRowStart(t: Tables, op: ShiftOp, rs1: Reg, rs2: Reg, s: State)
    requires Ready(t, s)
    ensures var table := Wrap(t.lst + RowsOf(op));
      var s', sp := Exec([Sw(S0, V1, SP), Sw(rs1, VA, SP)] + ShiftRow(t, rs2, table), s), Rd(s.r, SP);
      && OnlyRegs(s.r, s'.r, S0, TP, TP) && Rd(s'.r, S0) == RowOf(t, op, Amount(Rd(s.r, rs2)))
      && HoldsWord(s'.m, sp, VA, Rd(s.r, rs1)) && HoldsWord(s'.m, sp, V1, Rd(s.r, S0))
      && Kept(sp, s.m, s'.m) && Ready(t, s')
  {
    hide Rd, Exec, Ready, HoldsWord, ShiftRow, Wrap, Amount, Touched;
    var sp, table := Rd(s.r, SP), Wrap(t.lst + RowsOf(op));
    var c: Code := [Sw(S0, V1, SP), Sw(rs1, VA, SP)];
    var s1 := Exec(c, s);
    ShiftStart(rs1, s);
    ReadyTouched(t, s, s1, VA, VA + 4, V1, 0);
    TableFits(t, op, s);
    var s2 := Exec(ShiftRow(t, rs2, table), s1);
    ShiftRowRuns(t, rs2, table, s1);
    ExecAppend(c, ShiftRow(t, rs2, table), s);
    TouchedWider(sp, s1.m, s2.m, VB, VB + 4, 0, 0, VC, VA, 0, 0);
    HoldsKept(sp, s1.m, s2.m, VA, Rd(s.r, rs1));
    HoldsKept(sp, s1.m, s2.m, V1, Rd(s.r, S0));
    TouchedKept(sp, s.m, s1.m, VA, VA + 4, V1, 0);
    TouchedKept(sp, s1.m, s2.m, VC, VA, 0, 0);
    KeptTrans(sp, s.m, s1.m, s2.m);
  }

  lemma TableFits(t: Tables, op: ShiftOp, s: State)
    requires Ready(t, s)
    ensures Wrap(t.lst + RowsOf(op)) == t.lst + RowsOf(op) && t.lst + RowsOf(op) + 0x8000 <= W32
  {
    WrapSmall(t.lst + RowsOf(op));
  }

  lemma KeptTrans(sp: Word, m: Mem, m': Mem, m'': Mem)
    requires Kept(sp, m, m') && Kept(sp, m', m'')
    ensures Kept(sp, m, m'')
  {
    hide Ld, Scratch;
  }

  /** sll shifts by the low five bits of the second operand. */
  lemma SllRuns(t: Tables, rd: Reg, rs1: Reg, rs2: Reg, s: State)
    requires Ready(t, s) && rd != SP
    ensures var s' := Exec(Sll(t, rd, rs1, rs2), s);
      && OnlyRegs(s.r, s'.r, rd, TP, GP) && Kept(Rd(s.r, SP), s.m, s'.m)
      && (rd != ZERO ==> Rd(s'.r, rd) == Wrap(Rd(s.r, rs1) * Pow2(Amount(Rd(s.r, rs2)))))
  {
    hide Rd, Exec, Ready, HoldsWord, ShiftRow, Wrap, Amount, Touched, SllHigh, SllMid, SllLow, RowOf, Kept, Pow2, Ld,
      Ea,
      LdW, W4, B0, B1, B2, B3, Sll8;
    var sp, table, x, j := Rd(s.r, SP), Wrap(t.lst + SLL8), Rd(s.r, rs1), Amount(Rd(s.r, rs2));
    var c: Code := [Sw(S0, V1, SP), Sw(rs1, VA, SP)] + ShiftRow(t, rs2, table);
    var s1 := Exec(c, s);
    ShiftRowStart(t, SllOp, rs1, rs2, s);
    AmountSmall(Rd(s.r, rs2));
    var s2 := Exec(SllHigh(), s1);
    SllHighRuns(t, j, x, s1);
    HoldsKept(sp, s1.m, s2.m, VA, x);
    HoldsKept(sp, s1.m, s2.m, V1, Rd(s.r, S0));
    TouchedKept(sp, s1.m, s2.m, VC, VA, 0, 0);
    var s3 := Exec(SllMid(), s2);
    SllMidRuns(t, j, x, s2);
    HoldsKept(sp, s2.m, s3.m, VA, x);
    HoldsKept(sp, s2.m, s3.m, V1, Rd(s.r, S0));
    TouchedKept(sp, s2.m, s3.m, VC, VA, 0, 0);
    SllLowRuns(t, j, x, rd, s3);
    LoadsBack(s3.m, sp, V1, Rd(s.r, S0));
    KeptTrans(sp, s.m, s1.m, s2.m);
    KeptTrans(sp, s.m, s2.m, s3.m);
    SllWord(x, j);
    Cat4(c, SllHigh(), SllMid(), SllLow(rd), s);
  }

  lemma AmountSmall(w: Word)
    ensures Amount(w) < 32
  {
  }
}
