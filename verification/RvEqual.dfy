/** Running seq and seqz, which leave their verdict in tp. */
module RvEqual {
  import opened RvMachine
  import opened RvTables
  import opened RvMacros
  import opened RvBasics
  import opened RvArith
  import opened RvLogic

  /** Only the check array changed. */
  ghost predicate CheckOnly(t: Tables, m: Mem, m': Mem) {
    forall a :: !InCheck(t, a) ==> Ld(m', a) == Ld(m, a)
  }

  /** Only scratch bytes and the check array changed. */
  ghost predicate KeptOrCheck(t: Tables, sp: Word, m: Mem, m': Mem) {
    forall a :: !Scratch(sp, a) && !InCheck(t, a) ==> Ld(m', a) == Ld(m, a)
  }

  lemma ReadyCheck(t: Tables, s: State, s': State)
    requires Ready(t, s) && Rd(s'.r, SP) == Rd(s.r, SP) && CheckOnly(t, s.m, s'.m)
    ensures Ready(t, s')
  {
    hide Rd, Ld, Loaded, Clear, InCheck;
    assert SameRom(t, s.m, s'.m);
    LoadedFrame(t, s.m, s'.m);
  }

  /** No scratch byte is in the check array. */
  lemma ScratchKept(t: Tables, s: State, m': Mem)
    requires Ready(t, s) && CheckOnly(t, s.m, m')
    ensures forall k :: -28 <= k < 0 ==> Ld(m', Ea(Rd(s.r, SP), k)) == Ld(s.m, Ea(Rd(s.r, SP), k))
  {
    hide Rd, Ld, Ea, Loaded, InCheck, InRom, Scratch, Placed;
    ScratchFacts(Rd(s.r, SP));
    forall k | -28 <= k < 0 ensures Ld(m', Ea(Rd(s.r, SP), k)) == Ld(s.m, Ea(Rd(s.r, SP), k)) {
      assert Scratch(Rd(s.r, SP), Ea(Rd(s.r, SP), k));
    }
  }

  lemma CheckEntry(t: Tables, b: Byte)
    requires Placed(t)
    ensures t.check + b < W32 && Wrap(t.check + b) == t.check + b && Ea(t.check + b, 0) == t.check + b
    ensures InCheck(t, t.check + b)
  {
    WrapSmall(t.check + b);
  }

  lemma CheckSameRuns(t: Tables, rd: Reg, k: int, s: State)
    requires Ready(t, s) && Rd(s.r, S0) == t.check && rd !in {ZERO, SP, S0, TP} && 0 <= k < 4
    ensures var s', sp := Exec(CheckSame(S0, rd, k), s), Rd(s.r, SP);
      && OnlyRegs(s.r, s'.r, rd, TP, TP) && CheckOnly(t, s.m, s'.m) && Ready(t, s')
      && Rd(s'.r, rd) == if Ld(s.m, Ea(sp, VA + k)) == Ld(s.m, Ea(sp, VB + k)) then 0 else 1
  {
    hide Rd, Set, Ld, St, Ea, Scratch, Ready, Exec, B0, Wrap, InCheck;
    var sp := Rd(s.r, SP);
    var a, b := Ld(s.m, Ea(sp, VA + k)), Ld(s.m, Ea(sp, VB + k));
    ReadyParts(t, s);
    CheckEntry(t, a);
    CheckEntry(t, b);
    ByteWord(1);
    ByteWord(0);
    ReadZero(s.r);
    WrapWord(1);
    var c: Code := [Lbu(rd, VA + k, SP), Add(TP, S0, rd), Addi(rd, ZERO, 1), Sb(rd, 0, TP)];
    var d: Code := [Lbu(rd, VB + k, SP), Add(rd, S0, rd), Sb(ZERO, 0, rd), Lbu(rd, 0, TP)];
    assert CheckSame(S0, rd, k) == c + d;
    ExecAppend(c, d, s);
    var s1 := Exec(c, s);
    Exec4(Lbu(rd, VA + k, SP), Add(TP, S0, rd), Addi(rd, ZERO, 1), Sb(rd, 0, TP), s);
    assert CheckOnly(t, s.m, s1.m);
    ScratchKept(t, s, s1.m);
    Exec4(Lbu(rd, VB + k, SP), Add(rd, S0, rd), Sb(ZERO, 0, rd), Lbu(rd, 0, TP), s1);
    ReadZero(s1.r);
    ReadyCheck(t, s, Exec(d, s1));
  }

  function SeqStart(t: Tables, rs1: Reg, rs2: Reg): Code {
    [Sw(rs1, VA, SP), Sw(rs2, VB, SP), Sw(S0, V1, SP), Sw(S1, V2, SP)] + La(S0, t.check)
  }

  lemma SeqStores(rs1: Reg, rs2: Reg, s: State)
    ensures var s', sp := Exec([Sw(rs1, VA, SP), Sw(rs2, VB, SP), Sw(S0, V1, SP), Sw(S1, V2, SP)], s), Rd(s.r, SP);
      && s'.r == s.r && Touched(sp, s.m, s'.m, VB, VA + 4, V2, 0)
      && HoldsWord(s'.m, sp, VA, Rd(s.r, rs1)) && HoldsWord(s'.m, sp, VB, Rd(s.r, rs2))
      && HoldsWord(s'.m, sp, V1, Rd(s.r, S0)) && HoldsWord(s'.m, sp, V2, Rd(s.r, S1))
  {
    hide Exec, Rd, Ld, Ea, Scratch, B0, B1, B2, B3, Step;
    var s1 := Step(Sw(rs1, VA, SP), s);
    var s2 := Step(Sw(rs2, VB, SP), s1);
    var s3 := Step(Sw(S0, V1, SP), s2);
    Exec4(Sw(rs1, VA, SP), Sw(rs2, VB, SP), Sw(S0, V1, SP), Sw(S1, V2, SP), s);
    SwRuns(rs1, VA, s);
    SwRuns(rs2, VB, s1);
    SwRuns(S0, V1, s2);
    SwRuns(S1, V2, s3);
  }

  lemma LoadsBack(m: Mem, base: Word, off: int, v: Word)
    requires HoldsWord(m, base, off, v)
    ensures LdW(m, base, off) == v
  {
    FourBytes(v);
  }

  /** One more byte pair, its verdict added into gp. */
  lemma CheckAddRuns(t: Tables, k: int, s: State)
    requires Ready(t, s) && Rd(s.r, S0) == t.check && 0 <= k < 4 && Rd(s.r, GP) <= 3
    ensures var s', sp := Exec(CheckSame(S0, S1, k) + [Add(GP, GP, S1)], s), Rd(s.r, SP);
      && OnlyRegs(s.r, s'.r, GP, S1, TP) && CheckOnly(t, s.m, s'.m) && Ready(t, s')
      && Rd(s'.r, GP) == Rd(s.r, GP) + if Ld(s.m, Ea(sp, VA + k)) == Ld(s.m, Ea(sp, VB + k)) then 0 else 1
  {
    hide Rd, Set, Ld, Ea, Ready, Exec, CheckSame, Wrap;
    var s1 := Exec(CheckSame(S0, S1, k), s);
    CheckSameRuns(t, S1, k, s);
    ExecAppend(CheckSame(S0, S1, k), [Add(GP, GP, S1)], s);
    Exec1(Add(GP, GP, S1), s1);
    WrapSmall(Rd(s1.r, GP) + Rd(s1.r, S1));
    ReadySame(t, s1, Exec([Add(GP, GP, S1)], s1));
  }

  /** 1 when the bytes differ. */
  function Differ(a: Byte, b: Byte): int { if a == b then 0 else 1 }

  lemma FourSame(a: Word, b: Word)
    ensures Differ(B0(a), B0(b)) + Differ(B1(a), B1(b)) + Differ(B2(a), B2(b)) + Differ(B3(a), B3(b)) == 0 <==> a == b
  {
    hide B0, B1, B2, B3, W4;
    FourBytes(a);
    FourBytes(b);
  }

  lemma SameEntry(t: Tables, s: State, g: Byte)
    requires Ready(t, s) && g < 8
    ensures t.same + g < W32 && Wrap(t.same + g) == t.same + g && Ea(t.same + g, 0) == t.same + g
    ensures Ld(s.m, t.same + g) == if g == 0 then 1 else 0
  {
    hide Ld;
    assert SameLoaded(t, s.m, g);
  }

  lemma SameResultRuns(t: Tables, rd: Reg, s: State)
    requires Ready(t, s) && Rd(s.r, GP) <= 4
    ensures var s' := Exec(SameResult(t, rd), s);
      && s'.m == s.m && OnlyRegs(s.r, s'.r, rd, TP, TP)
      && (rd != ZERO ==> Rd(s'.r, rd) == if Rd(s.r, GP) == 0 then 1 else 0)
  {
    hide Exec, Rd, Set, Ld, Ea, Wrap, Ready;
    var s1 := Exec(La(TP, t.same), s);
    LaRuns(TP, t.same, s);
    SameEntry(t, s, Rd(s.r, GP));
    var g, s2 := Rd(s.r, GP), Step(Add(TP, TP, GP), s1);
    assert Rd(s2.r, TP) == t.same + g;
    assert rd != ZERO ==> Rd(Step(Lbu(rd, 0, TP), s2).r, rd) == if g == 0 then 1 else 0;
    Exec2(Add(TP, TP, GP), Lbu(rd, 0, TP), s1);
    ExecAppend(La(TP, t.same), [Add(TP, TP, GP), Lbu(rd, 0, TP)], s);
  }

  function SeqEnd(t: Tables, rd: Reg): Code {
    SameResult(t, rd) + [Lw(S1, V2, SP), Lw(S0, V1, SP)]
  }

  /** The reloads of s0 and s1 come after the result is written. */
  lemma SeqEndRuns(t: Tables, rd: Reg, s: State)
    requires Ready(t, s) && Rd(s.r, GP) <= 4 && rd != SP
    ensures var s', sp := Exec(SeqEnd(t, rd), s), Rd(s.r, SP);
      && s'.m == s.m && (forall x :: x !in {rd, TP, S0, S1} ==> Rd(s'.r, x) == Rd(s.r, x))
      && Rd(s'.r, S0) == LdW(s.m, sp, V1) && Rd(s'.r, S1) == LdW(s.m, sp, V2)
      && (rd !in {ZERO, S0, S1} ==> Rd(s'.r, rd) == if Rd(s.r, GP) == 0 then 1 else 0)
  {
    hide Exec, Rd, Set, LdW, Ready, SameResult;
    SameResultRuns(t, rd, s);
    Exec2(Lw(S1, V2, SP), Lw(S0, V1, SP), Exec(SameResult(t, rd), s));
    ExecAppend(SameResult(t, rd), [Lw(S1, V2, SP), Lw(S0, V1, SP)], s);
  }

  /** The byte comparisons of seq: gp counts the bytes that differ. */
  function SeqCount(): Code {
    CheckSame(S0, GP, 0) + (CheckSame(S0, S1, 1) + [Add(GP, GP, S1)]) +
    (CheckSame(S0, S1, 2) + [Add(GP, GP, S1)]) + (CheckSame(S0, S1, 3) + [Add(GP, GP, S1)])
  }

  lemma SeqCountRuns(t: Tables, s: State, a: Word, b: Word)
    requires Ready(t, s) && Rd(s.r, S0) == t.check
    requires HoldsWord(s.m, Rd(s.r, SP), VA, a) && HoldsWord(s.m, Rd(s.r, SP), VB, b)
    ensures var s' := Exec(SeqCount(), s);
      && OnlyRegs(s.r, s'.r, GP, S1, TP) && CheckOnly(t, s.m, s'.m) && Ready(t, s')
      && Rd(s'.r, GP) <= 4 && (Rd(s'.r, GP) == 0 <==> a == b)
  {
    hide Rd, Ld, Ea, Ready, Exec, CheckSame, B0, B1, B2, B3, InCheck;
    var s1 := Exec(CheckSame(S0, GP, 0), s);
    CheckSameRuns(t, GP, 0, s);
    ScratchKept(t, s, s1.m);
    var s2 := Exec(CheckSame(S0, S1, 1) + [Add(GP, GP, S1)], s1);
    CheckAddRuns(t, 1, s1);
    ScratchKept(t, s1, s2.m);
    var s3 := Exec(CheckSame(S0, S1, 2) + [Add(GP, GP, S1)], s2);
    CheckAddRuns(t, 2, s2);
    ScratchKept(t, s2, s3.m);
    CheckAddRuns(t, 3, s3);
    Cat4(CheckSame(S0, GP, 0), CheckSame(S0, S1, 1) + [Add(GP, GP, S1)], CheckSame(S0, S1, 2) + [Add(GP, GP, S1)],
      CheckSame(S0, S1, 3) + [Add(GP, GP, S1)], s);
    FourSame(a, b);
  }

  /** seq: rd becomes 1 exactly when the words are equal, whatever the check
      array held before; but s0 and s1 are restored last, so as destinations
      they keep their old values. */
  lemma SeqRuns(t: Tables, rd: Reg, rs1: Reg, rs2: Reg, s: State)
    requires Ready(t, s) && rd != SP
    ensures var s' := Exec(Seq(t, rd, rs1, rs2), s);
      && OnlyRegs(s.r, s'.r, if rd == S0 || rd == S1 then TP else rd, TP, GP) && Ready(t, s')
      && (rd !in {ZERO, S0, S1} ==> Rd(s'.r, rd) == if Rd(s.r, rs1) == Rd(s.r, rs2) then 1 else 0)
      && KeptOrCheck(t, Rd(s.r, SP), s.m, s'.m)
  {
    hide Rd, Ld, Ea, Ready, Exec, SeqCount, SeqEnd, Scratch, InCheck, B0, B1, B2, B3;
    var sp := Rd(s.r, SP);
    var c: Code := [Sw(rs1, VA, SP), Sw(rs2, VB, SP), Sw(S0, V1, SP), Sw(S1, V2, SP)];
    SeqStores(rs1, rs2, s);
    var s0 := Exec(c, s);
    ReadyTouched(t, s, s0, VB, VA + 4, V2, 0);
    LaRuns(S0, t.check, s0);
    ExecAppend(c, La(S0, t.check), s);
    var s1 := Exec(SeqStart(t, rs1, rs2), s);
    ReadySame(t, s0, s1);
    var s2 := Exec(SeqCount(), s1);
    SeqCountRuns(t, s1, Rd(s.r, rs1), Rd(s.r, rs2));
    ScratchKept(t, s1, s2.m);
    var s3 := Exec(SeqEnd(t, rd), s2);
    SeqEndRuns(t, rd, s2);
    LoadsBack(s2.m, sp, V1, Rd(s.r, S0));
    LoadsBack(s2.m, sp, V2, Rd(s.r, S1));
    SeqCode(t, rd, rs1, rs2);
    Cat3(SeqStart(t, rs1, rs2), SeqCount(), SeqEnd(t, rd), s);
    ReadySame(t, s2, s3);
  }

  lemma SeqCode(t: Tables, rd: Reg, rs1: Reg, rs2: Reg)
    ensures Seq(t, rd, rs1, rs2) == SeqStart(t, rs1, rs2) + SeqCount() + SeqEnd(t, rd)
  {
    hide CheckSame, La, SameResult;
  }

  // ---- seqz ----

  lemma CheckZeroRuns(t: Tables, rd: Reg, k: int, s: State)
    requires Ready(t, s) && Rd(s.r, S0) == t.zero8 && rd !in {ZERO, SP, S0} && 0 <= k < 4
    ensures var s', b := Exec(CheckZero(S0, rd, k), s), Ld(s.m, Ea(Rd(s.r, SP), VA + k));
      && s'.m == s.m && OnlyRegs(s.r, s'.r, rd, rd, rd) && Rd(s'.r, rd) == Differ(b, 0)
  {
    hide Exec, Rd, Set, Ld, Ea, Wrap;
    var b := Ld(s.m, Ea(Rd(s.r, SP), VA + k));
    assert Zero8Loaded(t, s.m, b);
    WrapSmall(t.zero8 + b);
    EaZero(t.zero8 + b);
    Exec3(Lbu(rd, VA + k, SP), Add(rd, S0, rd), Lbu(rd, 0, rd), s);
  }

  lemma CheckZeroAddRuns(t: Tables, k: int, s: State)
    requires Ready(t, s) && Rd(s.r, S0) == t.zero8 && 0 <= k < 4 && Rd(s.r, GP) <= 3
    ensures var s', b := Exec(CheckZero(S0, TP, k) + [Add(GP, GP, TP)], s), Ld(s.m, Ea(Rd(s.r, SP), VA + k));
      && s'.m == s.m && OnlyRegs(s.r, s'.r, GP, TP, TP) && Rd(s'.r, GP) == Rd(s.r, GP) + Differ(b, 0) && Ready(t, s')
  {
    hide Rd, Set, Ld, Ea, Wrap, Exec, CheckZero, Ready;
    var s1 := Exec(CheckZero(S0, TP, k), s);
    CheckZeroRuns(t, TP, k, s);
    ExecAppend(CheckZero(S0, TP, k), [Add(GP, GP, TP)], s);
    Exec1(Add(GP, GP, TP), s1);
    WrapSmall(Rd(s1.r, GP) + Rd(s1.r, TP));
    ReadySame(t, s, Exec([Add(GP, GP, TP)], s1));
  }

  function SeqzStart(t: Tables, rs1: Reg): Code {
    [Sw(rs1, VA, SP), Sw(S0, V1, SP)] + La(S0, t.zero8)
  }

  function SeqzCount(): Code {
    CheckZero(S0, GP, 0) + (CheckZero(S0, TP, 1) + [Add(GP, GP, TP)]) +
    (CheckZero(S0, TP, 2) + [Add(GP, GP, TP)]) + (CheckZero(S0, TP, 3) + [Add(GP, GP, TP)])
  }

  function SeqzEnd(t: Tables, rd: Reg): Code {
    SameResult(t, rd) + [Lw(S0, V1, SP)]
  }

  lemma SeqzStores(rs1: Reg, s: State)
    ensures var s', sp := Exec([Sw(rs1, VA, SP), Sw(S0, V1, SP)], s), Rd(s.r, SP);
      && s'.r == s.r && Touched(sp, s.m, s'.m, VA, VA + 4, V1, 0)
      && HoldsWord(s'.m, sp, VA, Rd(s.r, rs1)) && HoldsWord(s'.m, sp, V1, Rd(s.r, S0))
  {
    hide Exec, Rd, Set, Ld, St, Ea, Scratch, Wrap, B0, B1, B2, B3;
    Exec2(Sw(rs1, VA, SP), Sw(S0, V1, SP), s);
    ScratchFacts(Rd(s.r, SP));
  }

  lemma SeqzCountRuns(t: Tables, s: State, a: Word)
    requires Ready(t, s) && Rd(s.r, S0) == t.zero8 && HoldsWord(s.m, Rd(s.r, SP), VA, a)
    ensures var s' := Exec(SeqzCount(), s);
      && OnlyRegs(s.r, s'.r, GP, TP, TP) && s'.m == s.m && Rd(s'.r, GP) <= 4 && (Rd(s'.r, GP) == 0 <==> a == 0)
  {
    hide Rd, Ld, Ea, Ready, Exec, CheckZero, B0, B1, B2, B3;
    var s1 := Exec(CheckZero(S0, GP, 0), s);
    CheckZeroRuns(t, GP, 0, s);
    ReadySame(t, s, s1);
    var s2 := Exec(CheckZero(S0, TP, 1) + [Add(GP, GP, TP)], s1);
    CheckZeroAddRuns(t, 1, s1);
    var s3 := Exec(CheckZero(S0, TP, 2) + [Add(GP, GP, TP)], s2);
    CheckZeroAddRuns(t, 2, s2);
    CheckZeroAddRuns(t, 3, s3);
    Cat4(CheckZero(S0, GP, 0), CheckZero(S0, TP, 1) + [Add(GP, GP, TP)], CheckZero(S0, TP, 2) + [Add(GP, GP, TP)],
      CheckZero(S0, TP, 3) + [Add(GP, GP, TP)], s);
    FourSame(a, 0);
    ZeroIsZero();
  }

  lemma ZeroIsZero()
    ensures B0(0) == 0 && B1(0) == 0 && B2(0) == 0 && B3(0) == 0
  {
  }

  lemma SeqzEndRuns(t: Tables, rd: Reg, s: State)
    requires Ready(t, s) && Rd(s.r, GP) <= 4 && rd != SP
    ensures var s' := Exec(SeqzEnd(t, rd), s);
      && s'.m == s.m && OnlyRegs(s.r, s'.r, rd, TP, S0) && Rd(s'.r, S0) == LdW(s.m, Rd(s.r, SP), V1)
      && (rd !in {ZERO, S0} ==> Rd(s'.r, rd) == if Rd(s.r, GP) == 0 then 1 else 0)
  {
    hide Exec, Rd, Set, LdW, Ready, SameResult;
    SameResultRuns(t, rd, s);
    Exec1(Lw(S0, V1, SP), Exec(SameResult(t, rd), s));
    ExecAppend(SameResult(t, rd), [Lw(S0, V1, SP)], s);
  }

  /** seqz: rd becomes 1 exactly when the word is zero; but s0 is restored
      last, so as a destination it keeps its old value. */
  lemma SeqzRuns(t: Tables, rd: Reg, rs1: Reg, s: State)
    requires Ready(t, s) && rd != SP
    ensures var s' := Exec(Seqz(t, rd, rs1), s);
      && OnlyRegs(s.r, s'.r, if rd == S0 then TP else rd, TP, GP) && Ready(t, s')
      && (rd !in {ZERO, S0} ==> Rd(s'.r, rd) == if Rd(s.r, rs1) == 0 then 1 else 0)
      && Kept(Rd(s.r, SP), s.m, s'.m)
  {
    hide Rd, Ld, Ea, Ready, Exec, SeqzCount, SeqzEnd, Scratch, B0, B1, B2, B3;
    var sp := Rd(s.r, SP);
    var c: Code := [Sw(rs1, VA, SP), Sw(S0, V1, SP)];
    SeqzStores(rs1, s);
    var s0 := Exec(c, s);
    ReadyTouched(t, s, s0, VA, VA + 4, V1, 0);
    LaRuns(S0, t.zero8, s0);
    ExecAppend(c, La(S0, t.zero8), s);
    var s1 := Exec(SeqzStart(t, rs1), s);
    ReadySame(t, s0, s1);
    var s2 := Exec(SeqzCount(), s1);
    SeqzCountRuns(t, s1, Rd(s.r, rs1));
    ReadySame(t, s1, s2);
    SeqzEndRuns(t, rd, s2);
    LoadsBack(s2.m, sp, V1, Rd(s.r, S0));
    SeqzCode(t, rd, rs1);
    Cat3(SeqzStart(t, rs1), SeqzCount(), SeqzEnd(t, rd), s);
    ReadySame(t, s2, Exec(SeqzEnd(t, rd), s2));
  }

  lemma SeqzCode(t: Tables, rd: Reg, rs1: Reg)
    ensures Seqz(t, rd, rs1) == SeqzStart(t, rs1) + SeqzCount() + SeqzEnd(t, rd)
  {
    hide CheckZero, La, SameResult;
  }

  // ---- the destinations that fail ----

  /** In state s the macro leaves its verdict in rd. */
  ghost predicate SeqzSets(t: Tables, rd: Reg, rs1: Reg, s: State) {
    Rd(Exec(Seqz(t, rd, rs1), s).r, rd) == if Rd(s.r, rs1) == 0 then 1 else 0
  }

  ghost predicate SeqSets(t: Tables, rd: Reg, rs1: Reg, rs2: Reg, s: State) {
    Rd(Exec(Seq(t, rd, rs1, rs2), s).r, rd) == if Rd(s.r, rs1) == Rd(s.r, rs2) then 1 else 0
  }

  /** A state like s, but with a value in rd that no comparison yields. */
  function Spoiled(s: State, rd: Reg): State { s.(r := Set(s.r, rd, 2)) }

  lemma SpoiledReady(t: Tables, s: State, rd: Reg)
    requires Ready(t, s) && rd != SP && rd != ZERO
    ensures Ready(t, Spoiled(s, rd)) && Rd(Spoiled(s, rd).r, rd) == 2
  {
    hide Rd, Ready, Set;
    ReadySame(t, s, Spoiled(s, rd));
  }

  /** seqz s0 fails: it works in every state exactly for the other destinations. */
  lemma SeqzExact(t: Tables, rd: Reg, rs1: Reg, s: State)
    requires Ready(t, s) && rd != SP && rd != ZERO
    ensures (forall u :: Ready(t, u) ==> SeqzSets(t, rd, rs1, u)) <==> rd != S0
    ensures rd == S0 ==> Rd(Exec(Seqz(t, rd, rs1), s).r, rd) == Rd(s.r, rd)
  {
    hide Rd, Ready, Exec, Seqz, Spoiled, Kept;
    if rd == S0 {
      SeqzRuns(t, rd, rs1, s);
      SpoiledReady(t, s, rd);
      SeqzRuns(t, rd, rs1, Spoiled(s, rd));
      assert !SeqzSets(t, rd, rs1, Spoiled(s, rd));
    } else {
      forall u | Ready(t, u) ensures SeqzSets(t, rd, rs1, u) {
        SeqzRuns(t, rd, rs1, u);
      }
    }
  }

  /** The same for seq, whose last instructions restore s1 and s0. */
  lemma SeqExact(t: Tables, rd: Reg, rs1: Reg, rs2: Reg, s: State)
    requires Ready(t, s) && rd != SP && rd != ZERO
    ensures (forall u :: Ready(t, u) ==> SeqSets(t, rd, rs1, rs2, u)) <==> rd != S0 && rd != S1
    ensures rd == S0 || rd == S1 ==> Rd(Exec(Seq(t, rd, rs1, rs2), s).r, rd) == Rd(s.r, rd)
  {
    hide Rd, Ready, Exec, Seq, Spoiled, KeptOrCheck;
    if rd == S0 || rd == S1 {
      SeqRuns(t, rd, rs1, rs2, s);
      SpoiledReady(t, s, rd);
      SeqRuns(t, rd, rs1, rs2, Spoiled(s, rd));
      assert !SeqSets(t, rd, rs1, rs2, Spoiled(s, rd));
    } else {
      forall u | Ready(t, u) ensures SeqSets(t, rd, rs1, rs2, u) {
        SeqRuns(t, rd, rs1, rs2, u);
      }
    }
  }
}
