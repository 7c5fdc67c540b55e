/** Running slt and sltu. */
module RvCompare {
  import opened RvMachine
  import opened RvTables
  import opened RvMacros
  import opened RvBasics
  import opened RvArith

  lemma SltStores(rs2: Reg, s: State)
    ensures var s', sp := Exec([Sw(S0, V1, SP), Sw(S1, V2, SP), Sw(rs2, VA, SP)], s), Rd(s.r, SP);
      && s'.r == s.r && Touched(sp, s.m, s'.m, V2, 0, VA, VA + 4)
      && LdW(s'.m, sp, V1) == Rd(s.r, S0) && LdW(s'.m, sp, V2) == Rd(s.r, S1) && LdW(s'.m, sp, VA) == Rd(s.r, rs2)
  {
    hide Exec, Rd, Set, Ld, St, Ea, Scratch, Wrap, B0, B1, B2, B3, W4;
    Exec3(Sw(S0, V1, SP), Sw(S1, V2, SP), Sw(rs2, VA, SP), s);
    ScratchFacts(Rd(s.r, SP));
    FourBytes(Rd(s.r, S0));
    FourBytes(Rd(s.r, S1));
    FourBytes(Rd(s.r, rs2));
  }

  lemma SltSaveRuns(rs1: Reg, rs2: Reg, s: State)
    ensures var s', sp := Exec(SltSave(rs1, rs2), s), Rd(s.r, SP);
      && OnlyRegs(s.r, s'.r, S0, S1, S1) && Rd(s'.r, S0) == Rd(s.r, rs1) && Rd(s'.r, S1) == Rd(s.r, rs2)
      && LdW(s'.m, sp, V1) == Rd(s.r, S0) && LdW(s'.m, sp, V2) == Rd(s.r, S1)
      && Touched(sp, s.m, s'.m, V2, 0, VA, VA + 4)
  {
    hide Exec, Rd, Set, LdW, StW, Wrap, Touched;
    var a: Code, b: Code := [Sw(S0, V1, SP), Sw(S1, V2, SP), Sw(rs2, VA, SP)], [Mv(S0, rs1), Lw(S1, VA, SP)];
    assert SltSave(rs1, rs2) == a + b;
    ExecAppend(a, b, s);
    SltStores(rs2, s);
    Exec2(Mv(S0, rs1), Lw(S1, VA, SP), Exec(a, s));
    WrapWord(Rd(s.r, rs1));
  }

  lemma SltSignsRuns(s: State)
    ensures var s', sp := Exec(SltSigns(), s), Rd(s.r, SP);
      && OnlyRegs(s.r, s'.r, GP, TP, TP)
      && Rd(s'.r, GP) == 4 * Sign(Rd(s.r, S0)) + 2 * Sign(Rd(s.r, S1))
      && Touched(sp, s.m, s'.m, VC, VC + 4, 0, 0)
  {
    hide Rd, Set, Exec, Touched, Msb, Slli, Sign, Wrap;
    var sp := Rd(s.r, SP);
    var s1 := Exec(Msb(GP, S0), s);
    MsbRuns(GP, S0, s);
    var s2 := Exec(Slli(GP, GP, 1), s1);
    SlliOne(GP, s1);
    var s3 := Exec(Msb(TP, S1), s2);
    MsbRuns(TP, S1, s2);
    var s4 := Exec([Add(GP, GP, TP)], s3);
    Exec1(Add(GP, GP, TP), s3);
    SlliOne(GP, s4);
    Cat5(Msb(GP, S0), Slli(GP, GP, 1), Msb(TP, S1), [Add(GP, GP, TP)], Slli(GP, GP, 1), s);
    TouchedTrans(sp, s.m, s2.m, s3.m, VC, VC + 4, 0, 0);
    SignSmall(Rd(s.r, S0), Rd(s.r, S1));
  }

  lemma SlliOne(rd: Reg, s: State)
    requires rd != ZERO
    ensures var s' := Exec(Slli(rd, rd, 1), s);
      s'.m == s.m && OnlyRegs(s.r, s'.r, rd, rd, rd) && Rd(s'.r, rd) == Wrap(2 * Rd(s.r, rd))
  {
    hide Rd, Set, Wrap;
    SlliSmallRuns(rd, rd, 1, s);
  }

  lemma SignSmall(a: Word, b: Word)
    ensures Sign(a) <= 1 && Sign(b) <= 1
    ensures Wrap(2 * Wrap(Wrap(2 * Sign(a)) + Sign(b))) == 4 * Sign(a) + 2 * Sign(b)
    ensures forall c: Word :: Wrap(4 * Sign(a) + 2 * Sign(b) + Sign(c)) == 4 * Sign(a) + 2 * Sign(b) + Sign(c)
  {
  }

  lemma SltDiffRuns(t: Tables, s: State)
    requires Ready(t, s) && Rd(s.r, GP) <= 6
    ensures var s', sp := Exec(SltDiff(t), s), Rd(s.r, SP);
      && OnlyRegs(s.r, s'.r, GP, TP, TP)
      && Rd(s'.r, GP) == Rd(s.r, GP) + Sign(Wrap(Rd(s.r, S0) - Rd(s.r, S1)))
      && Touched(sp, s.m, s'.m, VD, VC + 4, V3, V3 + 4) && Ready(t, s')
  {
    hide Rd, Set, Exec, Touched, Msb, Sub, Sign, Wrap, Ready, Ea;
    var sp := Rd(s.r, SP);
    var s1 := Exec(Sub(t, TP, S0, S1), s);
    SubRuns(t, TP, S0, S1, s);
    var s2 := Exec(Msb(TP, TP), s1);
    MsbRuns(TP, TP, s1);
    TouchedWider(sp, s1.m, s2.m, VC, VC + 4, 0, 0, VD, VC + 4, V3, V3 + 4);
    TouchedTrans(sp, s.m, s1.m, s2.m, VD, VC + 4, V3, V3 + 4);
    Exec1(Add(GP, GP, TP), s2);
    Cat3(Sub(t, TP, S0, S1), Msb(TP, TP), [Add(GP, GP, TP)], s);
    AddSign(Rd(s.r, GP), Wrap(Rd(s.r, S0) - Rd(s.r, S1)));
    ReadyTouched(t, s, Exec(SltDiff(t), s), VD, VC + 4, V3, V3 + 4);
  }

  lemma AddSign(g: Word, d: Word)
    requires g <= 6
    ensures Wrap(g + Sign(d)) == g + Sign(d)
  {
  }

  lemma SltLookupRuns(lut: Word, rd: Reg, s: State)
    requires rd != SP && Rd(s.r, GP) <= 7 && lut + 8 <= W32
    ensures var s', sp := Exec(SltLookup(lut, rd), s), Rd(s.r, SP);
      && s'.m == s.m
      && (forall x: Reg :: x !in {TP, S0, S1, rd} ==> Rd(s'.r, x) == Rd(s.r, x))
      && (rd != S0 ==> Rd(s'.r, S0) == LdW(s.m, sp, V1)) && (rd != S1 ==> Rd(s'.r, S1) == LdW(s.m, sp, V2))
      && (rd != ZERO ==> Rd(s'.r, rd) == Ld(s.m, lut + Rd(s.r, GP)))
  {
    hide Exec, Rd, Set, Ld, LdW, Wrap, Ea;
    var s1 := Exec(La(TP, lut), s);
    LaRuns(TP, lut, s);
    Exec4(Add(TP, TP, GP), Lw(S1, V2, SP), Lw(S0, V1, SP), Lbu(rd, 0, TP), s1);
    ExecAppend(La(TP, lut), [Add(TP, TP, GP), Lw(S1, V2, SP), Lw(S0, V1, SP), Lbu(rd, 0, TP)], s);
    WrapSmall(lut + Rd(s.r, GP));
    EaZero(lut + Rd(s.r, GP));
  }

  /** The index that slt_template computes from its operands' signs. */
  function SltIndex(a: Word, b: Word): (i: Byte)
    ensures i < 8
  {
    4 * Sign(a) + 2 * Sign(b) + Sign(Wrap(a - b))
  }

  /** slt_template: rd is the table's entry for the three signs. */
  lemma SltTemplateRuns(t: Tables, lut: Word, rd: Reg, rs1: Reg, rs2: Reg, s: State)
    requires Ready(t, s) && rd != SP && (lut == t.slt1 || lut == t.sltu1)
    ensures var s' := Exec(SltTemplate(t, lut, rd, rs1, rs2), s);
      && OnlyRegs(s.r, s'.r, rd, TP, GP)
      && (rd != ZERO ==> Rd(s'.r, rd) == Ld(s.m, lut + SltIndex(Rd(s.r, rs1), Rd(s.r, rs2))))
      && Kept(Rd(s.r, SP), s.m, s'.m)
  {
    hide Rd, Set, Ld, St, Ea, Scratch, Wrap, Ready, Exec, SltSave, SltSigns, SltDiff, SltLookup, Sign, W4, SltIndex;
    SignTable(t, lut, SltIndex(Rd(s.r, rs1), Rd(s.r, rs2)), s);
    SltIndexIs(Rd(s.r, rs1), Rd(s.r, rs2));
    var sp := Rd(s.r, SP);
    var s1 := Exec(SltSave(rs1, rs2), s);
    SltSaveRuns(rs1, rs2, s);
    ReadyTouched(t, s, s1, V2, 0, VA, VA + 4);
    var s2 := Exec(SltSigns(), s1);
    SltSignsRuns(s1);
    ReadyTouched(t, s1, s2, VC, VC + 4, 0, 0);
    SignSmall(Rd(s.r, rs1), Rd(s.r, rs2));
    var s3 := Exec(SltDiff(t), s2);
    SltDiffRuns(t, s2);
    var s4 := Exec(SltLookup(lut, rd), s3);
    var i := SltIndex(Rd(s.r, rs1), Rd(s.r, rs2));
    SltLookupRuns(lut, rd, s3);
    Cat4(SltSave(rs1, rs2), SltSigns(), SltDiff(t), SltLookup(lut, rd), s);
    ReadyRom(t, s, lut + i);
    SavedSlots(sp, s1.m, s2.m, s3.m);
  }

  lemma SignTable(t: Tables, lut: Word, i: Byte, s: State)
    requires Ready(t, s) && i < 8 && (lut == t.slt1 || lut == t.sltu1)
    ensures lut + 8 <= W32 && InRom(t, lut + i)
  {
  }

  lemma SltIndexIs(a: Word, b: Word)
    ensures SltIndex(a, b) == 4 * Sign(a) + 2 * Sign(b) + Sign(Wrap(a - b))
  {
  }

  lemma ReadyRom(t: Tables, s: State, a: Word)
    requires Ready(t, s) && InRom(t, a)
    ensures !Scratch(Rd(s.r, SP), a)
  {
  }

  lemma SavedSlots(sp: Word, m1: Mem, m2: Mem, m3: Mem)
    requires Touched(sp, m1, m2, VC, VC + 4, 0, 0) && Touched(sp, m2, m3, VD, VC + 4, V3, V3 + 4)
    ensures LdW(m3, sp, V1) == LdW(m1, sp, V1) && LdW(m3, sp, V2) == LdW(m1, sp, V2)
  {
    hide Ld, Ea, Scratch, W4;
  }

  /** Both sign tables decide their comparison. */
  lemma SltDecides(a: Word, b: Word)
    ensures SLT1[SltIndex(a, b)] == (if Signed(a) < Signed(b) then 1 else 0)
    ensures SLTU1[SltIndex(a, b)] == (if a < b then 1 else 0)
  {
    if a < b {
      assert Wrap(a - b) == a - b + W32;
    } else {
      assert Wrap(a - b) == a - b;
    }
  }

  /** slt and sltu compare as the ISA says. */
  lemma SltRuns(t: Tables, rd: Reg, rs1: Reg, rs2: Reg, signed: bool, s: State)
    requires Ready(t, s) && rd != SP
    ensures var s', a, b := Exec(SltTemplate(t, if signed then t.slt1 else t.sltu1, rd, rs1, rs2), s), Rd(s.r, rs1),
      Rd(s.r, rs2);
      && OnlyRegs(s.r, s'.r, rd, TP, GP) && Kept(Rd(s.r, SP), s.m, s'.m)
      && (rd != ZERO ==> Rd(s'.r, rd) == if (if signed then Signed(a) < Signed(b) else a < b) then 1 else 0)
  {
    hide Rd, Ld, Exec, SltTemplate, SltIndex, Kept, Signed;
    var lut := if signed then t.slt1 else t.sltu1;
    var i := SltIndex(Rd(s.r, rs1), Rd(s.r, rs2));
    SltDecides(Rd(s.r, rs1), Rd(s.r, rs2));
    assert SltLoaded(t, s.m, i);
    SltTemplateRuns(t, lut, rd, rs1, rs2, s);
  }
}
