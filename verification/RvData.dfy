/** Every expansion computes what its instruction means. */
module RvData {
  import opened Bits
  import opened RvMachine
  import opened RvTables
  import opened RvMacros
  import opened RvIsa
  import opened RvBasics
  import opened RvArith
  import opened RvCompare
  import opened RvLogic
  import opened RvEqual
  import opened RvShift
  import opened RvShiftRight
  import opened RvAccess
  import opened RvRewrite

  /** Registers agree but for gp and tp, and memory but for scratch bytes and
      the check array. */
  ghost predicate Matches(t: Tables, sp: Word, isa: State, s: State) {
    && (forall x :: Free(x) ==> Rd(s.r, x) == Rd(isa.r, x))
    && KeptOrCheck(t, sp, isa.m, s.m)
  }

  // ---- register-register ----

  lemma SubZero(t: Tables, rs1: Reg, rs2: Reg, s: State)
    requires Ready(t, s)
    ensures var s' := Exec(Sub(t, ZERO, rs1, rs2), s);
      OnlyRegs(s.r, s'.r, TP, TP, TP) && Kept(Rd(s.r, SP), s.m, s'.m)
  {
    hide Rd, Exec, Ready, Touched, Kept, Not, Wrap;
    var s1 := Exec(Not(t, TP, rs2), s);
    NotRuns(t, TP, rs2, s);
    TouchedKept(Rd(s.r, SP), s.m, s1.m, VD, VC + 4, V3, V3 + 4);
    var c: Code := [Add(ZERO, rs1, TP), Addi(ZERO, ZERO, 1)];
    ExecAppend(Not(t, TP, rs2), c, s);
    Exec2(Add(ZERO, rs1, TP), Addi(ZERO, ZERO, 1), s1);
  }

  lemma SubKept(t: Tables, rd: Reg, rs1: Reg, rs2: Reg, s: State)
    requires Ready(t, s) && rd != SP && rs1 != TP
    ensures var s' := Exec(Sub(t, rd, rs1, rs2), s);
      && OnlyRegs(s.r, s'.r, rd, TP, TP) && Kept(Rd(s.r, SP), s.m, s'.m)
      && (rd != ZERO ==> Rd(s'.r, rd) == Wrap(Rd(s.r, rs1) - Rd(s.r, rs2)))
  {
    hide Rd, Exec, Ready, Touched, Kept, Sub, Wrap;
    if rd == ZERO {
      SubZero(t, rs1, rs2, s);
    } else {
      SubRuns(t, rd, rs1, rs2, s);
      TouchedKept(Rd(s.r, SP), s.m, Exec(Sub(t, rd, rs1, rs2), s).m, VD, VC + 4, V3, V3 + 4);
    }
  }

  function OpOf(op: Alu): LogicOp
    requires IsLogic(op)
  {
    match op
    case AND => AndOp
    case OR => OrOp
    case XOR => XorOp
  }

  lemma LogicWord(op: LogicOp, a: Word, b: Word, v: Word)
    requires v == BitsOf(op, a, b)
    ensures Wrap(BitsOf(op, a, b)) == v
  {
  }

  /** The register-register macros, also when rs2 is tp. */
  lemma RtypeRuns(t: Tables, op: Alu, rd: Reg, rs1: Reg, rs2: Reg, s: State)
    requires Ready(t, s) && Target(rd) && Free(rs1) && rs2 != GP && op != ADD
    ensures var s' := Exec(Rtype(t, op, rd, rs1, rs2), s);
      && OnlyRegs(s.r, s'.r, rd, TP, GP) && Kept(Rd(s.r, SP), s.m, s'.m)
      && (rd != ZERO ==> Rd(s'.r, rd) == AluResult(op, Rd(s.r, rs1), Rd(s.r, rs2)))
  {
    hide Rd, Exec, Ready, Kept, Wrap, Sub, Sll, SltTemplate, Logic, TableOf, ShiftRight, ShiftedRight, Pow2, BitAnd,
      BitOr, BitXor, Signed;
    if IsLogic(op) {
      var s' := Exec(Logic(TableOf(t, OpOf(op)), rd, rs1, rs2), s);
      LogicRuns(t, OpOf(op), rd, rs1, rs2, s);
      if rd != ZERO {
        LogicWord(OpOf(op), Rd(s.r, rs1), Rd(s.r, rs2), Rd(s'.r, rd));
      }
    } else {
      match op
      case SUB => SubKept(t, rd, rs1, rs2, s);
      case SLL => SllRuns(t, rd, rs1, rs2, s);
      case SLT => SltRuns(t, rd, rs1, rs2, true, s);
      case SLTU => SltRuns(t, rd, rs1, rs2, false, s);
      case SRL => ShiftRightRuns(t, rd, rs1, rs2, false, s);
      case SRA => ShiftRightRuns(t, rd, rs1, rs2, true, s);
    }
  }

  lemma LiRuns(imm: int, s: State)
    ensures var s' := Step(Li(TP, imm), s);
      s'.m == s.m && OnlyRegs(s.r, s'.r, TP, TP, TP) && Rd(s'.r, TP) == Wrap(imm)
  {
    hide Rd, Set, Wrap;
    ReadZero(s.r);
  }

  lemma ItypeRuns(t: Tables, op: Alu, rd: Reg, rs1: Reg, imm: int, s: State)
    requires Ready(t, s) && Target(rd) && Free(rs1) && op != ADD
    ensures var s' := Exec(Itype(t, op, rd, rs1, imm), s);
      && OnlyRegs(s.r, s'.r, rd, TP, GP) && Kept(Rd(s.r, SP), s.m, s'.m)
      && (rd != ZERO ==> Rd(s'.r, rd) == AluResult(op, Rd(s.r, rs1), Wrap(imm)))
  {
    hide Rd, Exec, Ready, Kept, Wrap, Step, Li, Rtype, AluResult;
    var s1 := Step(Li(TP, imm), s);
    LiRuns(imm, s);
    Exec1(Li(TP, imm), s);
    ReadySame(t, s, s1);
    RtypeRuns(t, op, rd, rs1, TP, s1);
    ExecAppend([Li(TP, imm)], Rtype(t, op, rd, rs1, TP), s);
  }

  lemma AmountOf(shamt: nat)
    requires shamt < 32
    ensures Wrap(shamt) % 32 == shamt
  {
  }

  lemma ConstantShiftRuns(t: Tables, op: Alu, rd: Reg, rs1: Reg, shamt: nat, s: State)
    requires Ready(t, s) && Target(rd) && IsShift(op) && shamt < 32
    ensures var s' := Exec(ShiftByConstant(t, op, rd, rs1, shamt), s);
      && OnlyRegs(s.r, s'.r, rd, TP, GP) && Kept(Rd(s.r, SP), s.m, s'.m)
      && (rd != ZERO ==> Rd(s'.r, rd) == AluResult(op, Rd(s.r, rs1), Wrap(shamt)))
  {
    hide Rd, Exec, Ready, Kept, Wrap, Slli, ShiftRightImm, ShiftedRight, Pow2;
    AmountOf(shamt);
    if op == SLL {
      SlliRuns(rd, rs1, shamt, s);
    } else if rd == ZERO {
      ShiftRightZero(t, rs1, shamt, op == SRA, s);
    } else {
      ShiftRightImmRuns(t, rd, rs1, shamt, op == SRA, s);
    }
  }

  // ---- from the contracts above to Matches ----

  /** An expansion that sets rd, and a macro state that keeps memory. */
  lemma SetMatches(t: Tables, s: State, s': State, rd: Reg, v: Word)
    requires OnlyRegs(s.r, s'.r, rd, TP, GP) && Free(rd) && Kept(Rd(s.r, SP), s.m, s'.m)
    requires rd != ZERO ==> Rd(s'.r, rd) == v
    ensures Matches(t, Rd(s.r, SP), s.(r := Set(s.r, rd, v)), s')
  {
    hide Rd, Set, Ld, Scratch, InCheck;
    ReadZero(s.r);
    ReadZero(s'.r);
  }

  lemma SameMatches(t: Tables, sp: Word, s: State)
    ensures Matches(t, sp, s, s)
  {
  }

  lemma Reg3Matches(t: Tables, i: Src, s: State, next: Word)
    requires Ready(t, s) && Supported(i) && (i.Reg3? || i.RegImm? || i.ShiftImm? || i.SetZero? || i.LoadUpper?)
    ensures Matches(t, Rd(s.r, SP), DataStep(i, s, next), Exec(Expand(t, i, next, next).body, s))
  {
    hide Rd, Set, Exec, Ready, Kept, Wrap, Rtype, ShiftByConstant, Seqz, AluResult, Matches;
    match i
    case Reg3(op, rd, rs1, rs2) =>
      if op == ADD {
        AddMatches(t, rd, rs1, rs2, s);
      } else {
        RtypeRuns(t, op, rd, rs1, rs2, s);
        SetMatches(t, s, Exec(Rtype(t, op, rd, rs1, rs2), s), rd, AluResult(op, Rd(s.r, rs1), Rd(s.r, rs2)));
      }
    case RegImm(op, rd, rs1, imm) =>
      if op == ADD {
        AddiMatches(t, rd, rs1, imm, s);
      } else {
        ItypeRuns(t, op, rd, rs1, imm, s);
        SetMatches(t, s, Exec(Itype(t, op, rd, rs1, imm), s), rd, AluResult(op, Rd(s.r, rs1), Wrap(imm)));
      }
    case ShiftImm(op, rd, rs1, shamt) =>
      ConstantShiftRuns(t, op, rd, rs1, shamt, s);
      SetMatches(t, s, Exec(ShiftByConstant(t, op, rd, rs1, shamt), s), rd, AluResult(op, Rd(s.r, rs1), Wrap(shamt)));
    case SetZero(rd, rs1) =>
      SetZeroMatches(t, rd, rs1, s);
    case LoadUpper(rd, upper) =>
      Exec1(Lui(rd, upper), s);
      SameMatches(t, Rd(s.r, SP), Step(Lui(rd, upper), s));
  }

  lemma SetZeroMatches(t: Tables, rd: Reg, rs1: Reg, s: State)
    requires Ready(t, s) && Target(rd) && rd != S0
    ensures Matches(t, Rd(s.r, SP), s.(r := Set(s.r, rd, AluResult(SLTU, Rd(s.r, rs1), 1))), Exec(Seqz(t, rd, rs1), s))
  {
    hide Rd, Set, Exec, Ready, Kept, Seqz, Matches, Signed;
    SeqzRuns(t, rd, rs1, s);
    SetMatches(t, s, Exec(Seqz(t, rd, rs1), s), rd, AluResult(SLTU, Rd(s.r, rs1), 1));
  }

  /** What Supported asks of a seqz is needed: its expansion has the meaning of
      the instruction in every state exactly when rd is not s0. */
  lemma SetZeroExact(t: Tables, rd: Reg, rs1: Reg, next: Word, s: State)
    requires Ready(t, s) && Target(rd) && Free(rs1)
    ensures Supported(SetZero(rd, rs1)) <==> forall u :: Ready(t, u) ==>
      Matches(t, Rd(u.r, SP), DataStep(SetZero(rd, rs1), u, next),
        Exec(Expand(t, SetZero(rd, rs1), next, next).body, u))
  {
    hide Rd, Set, Exec, Ready, Seqz, Matches, Spoiled, AluResult;
    var i := SetZero(rd, rs1);
    if rd == S0 {
      var u := Spoiled(s, S0);
      SpoiledReady(t, s, S0);
      SeqzRuns(t, S0, rs1, u);
      SltuBit(Rd(u.r, rs1));
      NotMatched(t, Rd(u.r, SP), DataStep(i, u, next), Exec(Expand(t, i, next, next).body, u), S0);
    } else {
      forall u | Ready(t, u) ensures Matches(t, Rd(u.r, SP), DataStep(i, u, next),
        Exec(Expand(t, i, next, next).body, u)) {
        SetZeroMatches(t, rd, rs1, u);
      }
    }
  }

  lemma SltuBit(a: Word)
    ensures AluResult(SLTU, a, 1) <= 1
  {
  }

  lemma NotMatched(t: Tables, sp: Word, isa: State, s: State, x: Reg)
    requires Free(x) && Rd(s.r, x) != Rd(isa.r, x)
    ensures !Matches(t, sp, isa, s)
  {
    hide Rd, KeptOrCheck;
  }

  lemma AddMatches(t: Tables, rd: Reg, rs1: Reg, rs2: Reg, s: State)
    ensures Matches(t, Rd(s.r, SP), s.(r := Set(s.r, rd, AluResult(ADD, Rd(s.r, rs1), Rd(s.r, rs2)))),
      Exec(Rtype(t, ADD, rd, rs1, rs2), s))
  {
    hide Rd, Set, Exec, Wrap, Matches;
    Exec1(Add(rd, rs1, rs2), s);
    SameMatches(t, Rd(s.r, SP), Step(Add(rd, rs1, rs2), s));
  }

  lemma AddiMatches(t: Tables, rd: Reg, rs1: Reg, imm: int, s: State)
    ensures Matches(t, Rd(s.r, SP), s.(r := Set(s.r, rd, AluResult(ADD, Rd(s.r, rs1), Wrap(imm)))),
      Exec([Addi(rd, rs1, imm)], s))
  {
    hide Rd, Set, Exec, Wrap, Matches;
    Exec1(Addi(rd, rs1, imm), s);
    WrapTwice(imm, Rd(s.r, rs1));
    SameMatches(t, Rd(s.r, SP), Step(Addi(rd, rs1, imm), s));
  }

  // ---- loads and stores ----

  lemma LoadUnscratched(t: Tables, i: Src, s: State)
    requires i.Load? && Allowed(t, i, s.r)
    ensures Unscratched(s, i.base, i.off)
    ensures LoadWidth(i.load) >= 2 ==> Unscratched(s, i.base, i.off + 1)
  {
    hide Rd, Ea, Scratch, InCheck, InRom, Clear;
    assert LoadsFrom(i, s.r, Ea(Rd(s.r, i.base), i.off));
    assert LoadWidth(i.load) >= 2 ==> LoadsFrom(i, s.r, Ea(Rd(s.r, i.base), i.off + 1));
  }

  lemma LoadMatches(t: Tables, i: Src, s: State, next: Word)
    requires Ready(t, s) && Supported(i) && Allowed(t, i, s.r) && i.Load?
    ensures Matches(t, Rd(s.r, SP), DataStep(i, s, next), Exec(Expand(t, i, next, next).body, s))
  {
    hide Rd, Set, Exec, Ready, Kept, Allowed, Unscratched, Lb, Lh, Lhu, Matches, LoadResult, LdW, Ld, Ea;
    var Load(load, rd, off, base) := i;
    var s' := Exec(LoadCode(t, load, rd, off, base), s);
    LoadUnscratched(t, i, s);
    LoadCases(load, s.m, Rd(s.r, base), off);
    if load == LW {
      Exec1(Lw(rd, off, base), s);
      SameMatches(t, Rd(s.r, SP), s');
    } else if load == LBU {
      Exec1(Lbu(rd, off, base), s);
      SameMatches(t, Rd(s.r, SP), s');
    } else {
      if load == LB {
        LbRuns(t, rd, off, base, s);
      } else if load == LH {
        LhRuns(t, rd, off, base, s);
      } else {
        LhuRuns(rd, off, base, s);
      }
      SetMatches(t, s, s', rd, LoadResult(load, s.m, Rd(s.r, base), off));
    }
  }

  lemma LoadCases(load: LoadKind, m: Mem, base: Word, off: int)
    ensures LoadResult(load, m, base, off) ==
      if load == LB then SignExtend8(Ld(m, Ea(base, off)))
      else if load == LH then SignExtend16(0x100 * Ld(m, Ea(base, off + 1)) + Ld(m, Ea(base, off)))
      else if load == LHU then 0x100 * Ld(m, Ea(base, off + 1)) + Ld(m, Ea(base, off))
      else if load == LW then LdW(m, base, off)
      else Ld(m, Ea(base, off))
  {
    hide Ld, Ea, LdW;
  }

  lemma StoreMatches(t: Tables, i: Src, s: State, next: Word)
    requires Supported(i) && i.Store?
    ensures Matches(t, Rd(s.r, SP), DataStep(i, s, next), Exec(Expand(t, i, next, next).body, s))
  {
    hide Rd, Exec, Sh, St, StW, Ld, Ea, B0, B1, Matches;
    var Store(store, rs, off, base) := i;
    var s' := Exec(StoreCode(store, rs, off, base), s);
    match store
    case SB =>
      Exec1(Sb(rs, off, base), s);
      SameMatches(t, Rd(s.r, SP), s');
    case SH =>
      ShMatches(t, rs, off, base, s);
    case SW =>
      Exec1(Sw(rs, off, base), s);
      SameMatches(t, Rd(s.r, SP), s');
  }

  lemma ShMatches(t: Tables, rs: Reg, off: int, base: Reg, s: State)
    requires Free(rs) && Free(base)
    ensures Matches(t, Rd(s.r, SP), s.(m := StoreResult(SH, s.m, Rd(s.r, base), off, Rd(s.r, rs))),
      Exec(Sh(rs, off, base), s))
  {
    hide Rd, Exec, Sh, St, Ld, Ea, Scratch, B0, B1, InCheck;
    ShRuns(rs, off, base, s);
  }

  // ---- branches ----

  lemma NotPositiveSum(t: Tables, v: Word, s: State)
    requires Ready(t, s)
    ensures var b, g := Sign(Wrap(v - 1)), Wrap(Sign(v) + Sign(Wrap(v - 1)));
      && g <= 2 && Wrap(g + t.or1) == t.or1 + g && t.or1 + g < W32 && Ea(t.or1 + g, 0) == t.or1 + g
      && Ld(s.m, t.or1 + g) == if Signed(v) <= 0 then 1 else 0
  {
    hide Ld;
    var g := Wrap(Sign(v) + Sign(Wrap(v - 1)));
    assert Or1Loaded(t, s.m, g);
    WrapSmall(t.or1 + g);
  }

  lemma MsbKept(rd: Reg, rs: Reg, s: State)
    requires rd != ZERO && rd != SP
    ensures var s' := Exec(Msb(rd, rs), s);
      && OnlyRegs(s.r, s'.r, rd, rd, rd) && Rd(s'.r, rd) == Sign(Rd(s.r, rs)) && Kept(Rd(s.r, SP), s.m, s'.m)
  {
    hide Rd, Exec, Msb, Touched, Kept, Sign;
    MsbRuns(rd, rs, s);
    TouchedKept(Rd(s.r, SP), s.m, Exec(Msb(rd, rs), s).m, VC, VC + 4, 0, 0);
  }

  lemma Or1Lookup(t: Tables, v: Word, s: State)
    requires Ready(t, s) && Rd(s.r, GP) == Wrap(Sign(v) + Sign(Wrap(v - 1)))
    ensures var s' := Exec(La(TP, t.or1) + [Add(TP, GP, TP), Lbu(TP, 0, TP)], s);
      s'.m == s.m && OnlyRegs(s.r, s'.r, TP, TP, TP) && Rd(s'.r, TP) == if Signed(v) <= 0 then 1 else 0
  {
    hide Exec, Rd, Set, Ld, Ea, Wrap, Ready, La, Sign, Signed;
    var s1 := Exec(La(TP, t.or1), s);
    LaRuns(TP, t.or1, s);
    NotPositiveSum(t, v, s);
    Exec2(Add(TP, GP, TP), Lbu(TP, 0, TP), s1);
    ExecAppend(La(TP, t.or1), [Add(TP, GP, TP), Lbu(TP, 0, TP)], s);
  }

  lemma AddiRuns(rd: Reg, rs: Reg, imm: int, s: State)
    requires rd != ZERO
    ensures var s' := Exec([Addi(rd, rs, imm)], s);
      s'.m == s.m && OnlyRegs(s.r, s'.r, rd, rd, rd) && Rd(s'.r, rd) == Wrap(Rd(s.r, rs) + imm)
  {
    hide Exec, Rd, Set, Wrap;
    Exec1(Addi(rd, rs, imm), s);
  }

  lemma NotPositiveRuns(t: Tables, rs: Reg, s: State)
    requires Ready(t, s) && Free(rs)
    ensures var s' := Exec(NotPositive(t, rs), s);
      && OnlyRegs(s.r, s'.r, TP, GP, GP) && Kept(Rd(s.r, SP), s.m, s'.m) && Ready(t, s')
      && Rd(s'.r, TP) == if Signed(Rd(s.r, rs)) <= 0 then 1 else 0
  {
    hide Exec, Rd, Ready, Kept, Msb, La, Wrap, Sign, Signed;
    var sp, v := Rd(s.r, SP), Rd(s.r, rs);
    var s1 := Exec(Msb(GP, rs), s);
    MsbKept(GP, rs, s);
    var s2 := Exec([Addi(TP, rs, -1)], s1);
    AddiRuns(TP, rs, -1, s1);
    var s3 := Exec(Msb(TP, TP), s2);
    MsbKept(TP, TP, s2);
    var s4 := Exec([Add(GP, GP, TP)], s3);
    AddRuns(GP, GP, TP, s3);
    KeptTrans(sp, s.m, s2.m, s4.m);
    ReadyKept(t, s, s4);
    var c: Code := La(TP, t.or1) + [Add(TP, GP, TP), Lbu(TP, 0, TP)];
    Or1Lookup(t, v, s4);
    NotPositiveCode(t, rs);
    Cat5(Msb(GP, rs), [Addi(TP, rs, -1)], Msb(TP, TP), [Add(GP, GP, TP)], c, s);
    ReadySame(t, s4, Exec(c, s4));
  }

  lemma NotPositiveCode(t: Tables, rs: Reg)
    ensures NotPositive(t, rs) == Msb(GP, rs) + [Addi(TP, rs, -1)] + Msb(TP, TP) + [Add(GP, GP, TP)] +
                                  (La(TP, t.or1) + [Add(TP, GP, TP), Lbu(TP, 0, TP)])
  {
    hide Msb, La;
  }

  lemma KeptIsKeptOrCheck(t: Tables, sp: Word, m: Mem, m': Mem)
    requires Kept(sp, m, m')
    ensures KeptOrCheck(t, sp, m, m')
  {
  }

  lemma SignDecides(a: Word)
    ensures Sign(a) == if Signed(a) < 0 then 1 else 0
    ensures Signed(0) == 0
  {
  }

  /** The comparison before a branch leaves its verdict in tp. */
  lemma CompareRuns(t: Tables, cond: Cond, rs1: Reg, rs2: Reg, s: State)
    requires Ready(t, s) && Free(rs1) && Free(rs2)
    ensures var s' := Exec(Compare(t, cond, rs1, rs2), s);
      && OnlyRegs(s.r, s'.r, TP, GP, GP) && KeptOrCheck(t, Rd(s.r, SP), s.m, s'.m) && Ready(t, s')
      && Rd(s'.r, TP) == if Taken(cond, Rd(s.r, rs1), Rd(s.r, rs2)) == HighTakes(cond, rs1, rs2) then 1 else 0
  {
    hide Exec, Rd, Ready, Kept, KeptOrCheck, Seq, Seqz, Msb, NotPositive, SltTemplate, Signed, Sign;
    var sp, s' := Rd(s.r, SP), Exec(Compare(t, cond, rs1, rs2), s);
    ReadZero(s.r);
    SignDecides(Rd(s.r, rs1));
    if cond == BEQ || cond == BNE {
      if rs2 == ZERO {
        SeqzRuns(t, TP, rs1, s);
        KeptIsKeptOrCheck(t, sp, s.m, s'.m);
      } else if rs1 == ZERO {
        SeqzRuns(t, TP, rs2, s);
        KeptIsKeptOrCheck(t, sp, s.m, s'.m);
      } else {
        SeqRuns(t, TP, rs1, rs2, s);
      }
    } else {
      if cond == BLT && rs2 == ZERO {
        MsbKept(TP, rs1, s);
      } else if (cond == BLT || cond == BGE) && rs1 == ZERO {
        NotPositiveRuns(t, rs2, s);
      } else {
        SltRuns(t, TP, rs1, rs2, cond == BLT || cond == BGE, s);
      }
      KeptIsKeptOrCheck(t, sp, s.m, s'.m);
      ReadyKept(t, s, s');
    }
  }

  /** The word at VB of sp + 4 * sel is the word A or B of sp. */
  lemma SelectedWord(m: Mem, sp: Word, sel: Word)
    requires sel <= 1
    ensures LdW(m, Wrap(sp + Wrap(sel * 4)), VB) == LdW(m, sp, if sel == 1 then VA else VB)
  {
    hide Ld, W4;
    WrapSmall(sel * 4);
    WrapTwice(sp + sel * 4, VB);
    WrapTwice(sp + sel * 4, VB + 1);
    WrapTwice(sp + sel * 4, VB + 2);
    WrapTwice(sp + sel * 4, VB + 3);
  }

  lemma StoreAddress(addr: Word, off: int, s: State)
    requires off == VA || off == VB
    ensures var s', sp := Exec(La(GP, addr) + [Sw(GP, off, SP)], s), Rd(s.r, SP);
      && OnlyRegs(s.r, s'.r, GP, GP, GP) && Touched(sp, s.m, s'.m, off, off + 4, 0, 0) && HoldsWord(s'.m, sp, off, addr)
  {
    hide Exec, Rd, La, Touched, HoldsWord, Step;
    var s1 := Exec(La(GP, addr), s);
    LaRuns(GP, addr, s);
    ExecAppend(La(GP, addr), [Sw(GP, off, SP)], s);
    Exec1(Sw(GP, off, SP), s1);
    SwRuns(GP, off, s1);
  }

  lemma SlliFour(s: State)
    ensures var s' := Exec(Slli(TP, TP, 2), s);
      s'.m == s.m && OnlyRegs(s.r, s'.r, TP, TP, TP) && Rd(s'.r, TP) == Wrap(Rd(s.r, TP) * 4)
  {
    hide Exec, Rd, Wrap, Slli;
    SlliSmallRuns(TP, TP, 2, s);
    Pow2Small();
  }

  lemma LoadSelected(sp: Word, sel: Word, high: Word, low: Word, s: State)
    requires sel <= 1 && Rd(s.r, TP) == Wrap(sp + Wrap(sel * 4))
    requires HoldsWord(s.m, sp, VA, high) && HoldsWord(s.m, sp, VB, low)
    ensures var s' := Exec([Lw(TP, VB, TP)], s);
      s'.m == s.m && OnlyRegs(s.r, s'.r, TP, TP, TP) && Rd(s'.r, TP) == if sel == 1 then high else low
  {
    hide Exec, Rd, Set, LdW, Wrap, HoldsWord;
    Exec1(Lw(TP, VB, TP), s);
    SelectedWord(s.m, sp, sel);
    LoadsBack(s.m, sp, VA, high);
    LoadsBack(s.m, sp, VB, low);
  }

  /** branch_resolve picks one of two addresses. */
  lemma BranchSelectRuns(high: Word, low: Word, s: State)
    requires Rd(s.r, TP) <= 1
    ensures var s', sp := Exec(BranchSelect(high, low), s), Rd(s.r, SP);
      && OnlyRegs(s.r, s'.r, TP, GP, GP) && Kept(sp, s.m, s'.m)
      && Rd(s'.r, TP) == if Rd(s.r, TP) == 1 then high else low
  {
    hide Exec, Rd, Slli, La, Wrap, HoldsWord, Touched, Kept, Ld;
    var sp, sel := Rd(s.r, SP), Rd(s.r, TP);
    var s1 := Exec(Slli(TP, TP, 2), s);
    SlliFour(s);
    var s2 := Exec([Add(TP, SP, TP)], s1);
    AddRuns(TP, SP, TP, s1);
    var c: Code, d: Code := La(GP, high) + [Sw(GP, VA, SP)], La(GP, low) + [Sw(GP, VB, SP)];
    var s3 := Exec(c, s2);
    StoreAddress(high, VA, s2);
    var s4 := Exec(d, s3);
    StoreAddress(low, VB, s3);
    HoldsApart(sp, s3.m, s4.m, VA, high, VB);
    LoadSelected(sp, sel, high, low, s4);
    BranchSelectCode(high, low);
    Cat5(Slli(TP, TP, 2), [Add(TP, SP, TP)], c, d, [Lw(TP, VB, TP)], s);
    TouchedKept(sp, s2.m, s3.m, VA, VA + 4, 0, 0);
    TouchedKept(sp, s3.m, s4.m, VB, VB + 4, 0, 0);
    KeptTrans(sp, s.m, s3.m, s4.m);
  }

  lemma BranchSelectCode(high: Word, low: Word)
    ensures BranchSelect(high, low) == Slli(TP, TP, 2) + [Add(TP, SP, TP)] + (La(GP, high) + [Sw(GP, VA, SP)]) +
                                       (La(GP, low) + [Sw(GP, VB, SP)]) + [Lw(TP, VB, TP)]
  {
    hide Slli, La;
  }

  /** A branch leaves in tp the address that its outcome demands. */
  lemma BranchRuns(t: Tables, cond: Cond, rs1: Reg, rs2: Reg, next: Word, target: Word, s: State)
    requires Ready(t, s) && Free(rs1) && Free(rs2)
    ensures var s' := Exec(BranchCode(t, cond, rs1, rs2, next, target), s);
      && OnlyRegs(s.r, s'.r, TP, GP, GP) && KeptOrCheck(t, Rd(s.r, SP), s.m, s'.m)
      && Rd(s'.r, TP) == if Taken(cond, Rd(s.r, rs1), Rd(s.r, rs2)) then target else next
  {
    hide Exec, Rd, Ready, Compare, BranchSelect, Taken, HighTakes, Ld, Scratch, InCheck;
    var s1 := Exec(Compare(t, cond, rs1, rs2), s);
    CompareRuns(t, cond, rs1, rs2, s);
    var h := HighTakes(cond, rs1, rs2);
    var c := if h then BranchSelect(target, next) else BranchSelect(next, target);
    if h {
      BranchSelectRuns(target, next, s1);
    } else {
      BranchSelectRuns(next, target, s1);
    }
    ExecAppend(Compare(t, cond, rs1, rs2), c, s);
  }
}
