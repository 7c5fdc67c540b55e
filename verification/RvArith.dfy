/** Running not, sub, slli below 16, slt and sltu. */
module RvArith {
  import opened Bits
  import opened RvMachine
  import opened RvTables
  import opened RvMacros
  import opened RvBasics

  /** What an expansion may assume: tables in place, and free scratch words. */
  ghost predicate Ready(t: Tables, s: State) {
    Placed(t) && Loaded(t, s.m) && Clear(t, Rd(s.r, SP))
  }

  lemma TouchedKept(sp: Word, m: Mem, m': Mem, lo: int, hi: int, lo': int, hi': int)
    requires Touched(sp, m, m', lo, hi, lo', hi')
    ensures Kept(sp, m, m')
  {
  }

  lemma ReadyKept(t: Tables, s: State, s': State)
    requires Ready(t, s) && Rd(s'.r, SP) == Rd(s.r, SP) && Kept(Rd(s.r, SP), s.m, s'.m)
    ensures Ready(t, s')
  {
    hide Placed, Loaded, Clear, Kept, Rd;
    LoadedKept(t, Rd(s.r, SP), s.m, s'.m);
  }

  lemma ReadyTouched(t: Tables, s: State, s': State, lo: int, hi: int, lo': int, hi': int)
    requires Ready(t, s) && Rd(s'.r, SP) == Rd(s.r, SP) && Touched(Rd(s.r, SP), s.m, s'.m, lo, hi, lo', hi')
    ensures Ready(t, s')
  {
    hide Ready, Touched, Kept, Rd;
    TouchedKept(Rd(s.r, SP), s.m, s'.m, lo, hi, lo', hi');
    ReadyKept(t, s, s');
  }

  /** A wider pair of ranges, for putting touches together. */
  lemma TouchedWider(sp: Word, m: Mem, m': Mem, lo: int, hi: int, lo': int, hi': int, a: int, b: int, c: int, d: int)
    requires Touched(sp, m, m', lo, hi, lo', hi')
    requires forall k {:trigger Ea(sp, k)} :: lo <= k < hi || lo' <= k < hi' ==> a <= k < b || c <= k < d
    ensures Touched(sp, m, m', a, b, c, d)
  {
    hide Ea, Scratch;
  }

  // ---- not ----

  lemma XorFf(b: Byte)
    ensures BitXor(0xff, b) == 0xff - b
  {
    hide BitXor, Pow2;
    Pow2Values();
    XorOnes(8, b);
  }

  lemma NotEntry(t: Tables, m: Mem, b: Byte)
    requires Placed(t) && Loaded(t, m)
    ensures var a := t.lst + XOR8 + 0xff00; 0 <= a + b < W32 && Ld(m, a + b) == 0xff - b
  {
    hide BitXor, Ld;
    assert XorLoaded(t, m, 0xff, b);
    XorFf(b);
  }

  /** A byte store to a scratch address. */
  lemma SbRuns(rs: Reg, off: int, s: State)
    requires -28 <= off < 0
    ensures var s', sp := Step(Sb(rs, off, SP), s), Rd(s.r, SP);
      s'.r == s.r && Touched(sp, s.m, s'.m, off, off + 1, 0, 0) && Ld(s'.m, Ea(sp, off)) == B0(Rd(s.r, rs))
  {
    hide Rd, Ld, St, Ea, Scratch, B0;
    ScratchFacts(Rd(s.r, SP));
  }

  lemma NotFetch(t: Tables, k: int, s: State)
    requires Ready(t, s) && 0 <= k < 4
    requires Rd(s.r, TP) == t.lst + XOR8 + 0xff00
    ensures var s' := Exec([Lbu(GP, VC + k, SP), Add(GP, GP, TP), Lbu(GP, 0, GP)], s);
      && s'.m == s.m && OnlyRegs(s.r, s'.r, GP, GP, GP)
      && Rd(s'.r, GP) == 0xff - Ld(s.m, Ea(Rd(s.r, SP), VC + k))
  {
    hide Exec, Rd, Set, Ld, Ea, Wrap, Ready;
    var b: int := Ld(s.m, Ea(Rd(s.r, SP), VC + k));
    var a: int := t.lst + XOR8 + 0xff00;
    ReadyParts(t, s);
    NotEntry(t, s.m, b);
    WrapSmall(b + a);
    EaZero(b + a);
    Exec3(Lbu(GP, VC + k, SP), Add(GP, GP, TP), Lbu(GP, 0, GP), s);
  }

  lemma NotByteRuns(t: Tables, k: int, s: State)
    requires Ready(t, s) && 0 <= k < 4
    requires Rd(s.r, TP) == t.lst + XOR8 + 0xff00
    ensures var s', sp := Exec(NotByte(k), s), Rd(s.r, SP);
      && OnlyRegs(s.r, s'.r, GP, GP, GP)
      && Touched(sp, s.m, s'.m, VD + k, VD + k + 1, 0, 0)
      && Ld(s'.m, Ea(sp, VD + k)) == 0xff - Ld(s.m, Ea(sp, VC + k))
      && Ready(t, s')
  {
    hide Exec, Rd, Ld, Ea, Ready, Step, Touched, B0;
    var c: Code := [Lbu(GP, VC + k, SP), Add(GP, GP, TP), Lbu(GP, 0, GP)];
    var s1 := Exec(c, s);
    NotFetch(t, k, s);
    assert NotByte(k) == c + [Sb(GP, VD + k, SP)];
    ExecAppend(c, [Sb(GP, VD + k, SP)], s);
    Exec1(Sb(GP, VD + k, SP), s1);
    SbRuns(GP, VD + k, s1);
    ByteWord(Rd(s1.r, GP));
    ReadyTouched(t, s, Exec(NotByte(k), s), VD + k, VD + k + 1, 0, 0);
  }

  lemma ReadyParts(t: Tables, s: State)
    requires Ready(t, s)
    ensures Placed(t) && Loaded(t, s.m) && Clear(t, Rd(s.r, SP))
  {
  }

  lemma ByteWord(b: Byte)
    ensures B0(b) == b
  {
  }

  lemma NotRuns(t: Tables, rd: Reg, rs: Reg, s: State)
    requires Ready(t, s) && rd != ZERO && rd != SP
    ensures var s' := Exec(Not(t, rd, rs), s);
      && OnlyRegs(s.r, s'.r, rd, TP, TP) && Rd(s'.r, rd) == W32 - 1 - Rd(s.r, rs)
      && Touched(Rd(s.r, SP), s.m, s'.m, VD, VC + 4, V3, V3 + 4) && Ready(t, s')
  {
    hide Rd, Set, Ld, St, Ea, Scratch, Wrap, Ready, Exec, NotByte, La, B0, B1, B2, B3, W4, Step;
    var sp := Rd(s.r, SP);
    var c0: Code := [Sw(GP, V3, SP), Sw(rs, VC, SP)];
    var a := Wrap(t.lst + XOR8 + (0xff * 256));
    var s0 := Exec(c0, s);
    NotStart(rs, s);
    NotBase(t, s);
    ReadyTouched(t, s, s0, VC, VC + 4, V3, V3 + 4);
    var s1 := Exec(La(TP, a), s0);
    LaRuns(TP, a, s0);
    ReadySame(t, s0, s1);
    var s2 := Exec(NotByte(3), s1);
    NotByteRuns(t, 3, s1);
    var s3 := Exec(NotByte(2), s2);
    NotByteRuns(t, 2, s2);
    var s4 := Exec(NotByte(1), s3);
    NotByteRuns(t, 1, s3);
    var s5 := Exec(NotByte(0), s4);
    NotByteRuns(t, 0, s4);
    var c6: Code := [Lw(GP, V3, SP), Lw(rd, VD, SP)];
    var s6 := Exec(c6, s5);
    ExecAppend(c0 + La(TP, a) + NotByte(3) + NotByte(2) + NotByte(1) + NotByte(0), c6, s);
    Cat6(c0, La(TP, a), NotByte(3), NotByte(2), NotByte(1), NotByte(0), s);
    NotEnd(rd, s5, s, rs, s0);
    ReadyTouched(t, s, s6, VD, VC + 4, V3, V3 + 4);
  }

  lemma ReadySame(t: Tables, s: State, s': State)
    requires Ready(t, s) && s'.m == s.m && Rd(s'.r, SP) == Rd(s.r, SP)
    ensures Ready(t, s')
  {
  }

  lemma NotBase(t: Tables, s: State)
    requires Ready(t, s)
    ensures Wrap(t.lst + XOR8 + (0xff * 256)) == t.lst + XOR8 + 0xff00
  {
    WrapSmall(t.lst + XOR8 + (0xff * 256));
  }

  lemma NotStart(rs: Reg, s: State)
    ensures var s0, sp := Exec([Sw(GP, V3, SP), Sw(rs, VC, SP)], s), Rd(s.r, SP);
      && s0.r == s.r && Touched(sp, s.m, s0.m, VC, VC + 4, V3, V3 + 4)
      && LdW(s0.m, sp, V3) == Rd(s.r, GP) && HoldsWord(s0.m, sp, VC, Rd(s.r, rs))
  {
    hide Exec, Rd, Set, Ld, St, Ea, Scratch, Wrap, B0, B1, B2, B3, W4;
    var sp := Rd(s.r, SP);
    Exec2(Sw(GP, V3, SP), Sw(rs, VC, SP), s);
    ScratchFacts(sp);
    FourBytes(Rd(s.r, GP));
  }

  /** The four bytes at an offset are those of v. */
  ghost predicate HoldsWord(m: Mem, base: Word, off: int, v: Word) {
    Ld(m, Ea(base, off)) == B0(v) && Ld(m, Ea(base, off + 1)) == B1(v) &&
    Ld(m, Ea(base, off + 2)) == B2(v) && Ld(m, Ea(base, off + 3)) == B3(v)
  }

  /** A store to a scratch word. */
  lemma SwRuns(rs: Reg, off: int, s: State)
    requires -28 <= off <= -4
    ensures var s', sp := Step(Sw(rs, off, SP), s), Rd(s.r, SP);
      s'.r == s.r && Touched(sp, s.m, s'.m, off, off + 4, 0, 0) && HoldsWord(s'.m, sp, off, Rd(s.r, rs))
  {
    hide Rd, Ld, St, Ea, Scratch, B0, B1, B2, B3;
    ScratchFacts(Rd(s.r, SP));
  }

  lemma NotWord(w: Word)
    ensures W4(0xff - B0(w), 0xff - B1(w), 0xff - B2(w), 0xff - B3(w)) == W32 - 1 - w
  {
    hide B0, B1, B2, B3, W4;
    FourBytes(w);
    WordSum(B0(w), B1(w), B2(w), B3(w));
    WordSum(0xff - B0(w), 0xff - B1(w), 0xff - B2(w), 0xff - B3(w));
  }

  lemma NotEnd(rd: Reg, s: State, was: State, rs: Reg, s0: State)
    requires rd != ZERO && rd != SP
    requires OnlyRegs(was.r, s.r, GP, TP, TP)
    requires var sp := Rd(was.r, SP);
      && Touched(sp, was.m, s0.m, VC, VC + 4, V3, V3 + 4) && Touched(sp, s0.m, s.m, VD, VD + 4, 0, 0)
      && LdW(s0.m, sp, V3) == Rd(was.r, GP) && HoldsWord(s0.m, sp, VC, Rd(was.r, rs))
      && Ld(s.m, Ea(sp, VD)) == 0xff - Ld(s0.m, Ea(sp, VC)) &&
        Ld(s.m, Ea(sp, VD + 1)) == 0xff - Ld(s0.m, Ea(sp, VC + 1))
      && Ld(s.m, Ea(sp, VD + 2)) == 0xff - Ld(s0.m, Ea(sp, VC + 2)) &&
        Ld(s.m, Ea(sp, VD + 3)) == 0xff - Ld(s0.m, Ea(sp, VC + 3))
    ensures var s' := Exec([Lw(GP, V3, SP), Lw(rd, VD, SP)], s);
      && OnlyRegs(was.r, s'.r, rd, TP, TP) && Rd(s'.r, rd) == W32 - 1 - Rd(was.r, rs)
      && Touched(Rd(was.r, SP), was.m, s'.m, VD, VC + 4, V3, V3 + 4)
  {
    hide Exec, Rd, Set, Ld, St, Ea, Scratch, Wrap, B0, B1, B2, B3, W4;
    Exec2(Lw(GP, V3, SP), Lw(rd, VD, SP), s);
    NotWord(Rd(was.r, rs));
  }

  // ---- sub ----

  lemma SubRuns(t: Tables, rd: Reg, rs1: Reg, rs2: Reg, s: State)
    requires Ready(t, s) && rd != ZERO && rd != SP && rs1 != TP
    ensures var s' := Exec(Sub(t, rd, rs1, rs2), s);
      && OnlyRegs(s.r, s'.r, rd, TP, TP) && Rd(s'.r, rd) == Wrap(Rd(s.r, rs1) - Rd(s.r, rs2))
      && Touched(Rd(s.r, SP), s.m, s'.m, VD, VC + 4, V3, V3 + 4) && Ready(t, s')
  {
    hide Rd, Set, Ld, St, Ea, Scratch, Wrap, Ready, Touched, Exec, Not;
    var s1 := Exec(Not(t, TP, rs2), s);
    NotRuns(t, TP, rs2, s);
    var c: Code := [Add(rd, rs1, TP), Addi(rd, rd, 1)];
    Exec2(Add(rd, rs1, TP), Addi(rd, rd, 1), s1);
    ExecAppend(Not(t, TP, rs2), c, s);
    SubByNot(Rd(s.r, rs1), Rd(s.r, rs2));
    ReadyTouched(t, s, Exec(c, s1), VD, VC + 4, V3, V3 + 4);
  }

  lemma SubByNot(a: Word, b: Word)
    ensures Wrap(Wrap(a + (W32 - 1 - b)) + 1) == Wrap(a - b)
  {
    WrapTwice(a + (W32 - 1 - b), 1);
    WrapAround(a - b, 1);
  }

  // ---- slli by less than 16 ----

  lemma {:induction false} DoublesRuns(rd: Reg, n: nat, s: State)
    requires rd != ZERO
    ensures var s' := Exec(Doubles(rd, n), s);
      s'.m == s.m && OnlyRegs(s.r, s'.r, rd, rd, rd) && Rd(s'.r, rd) == Wrap(Rd(s.r, rd) * Pow2(n))
    decreases n
  {
    hide Rd, Set, Wrap;
    WrapWord(Rd(s.r, rd));
    if n > 0 {
      var s1 := Step(Add(rd, rd, rd), s);
      Exec1(Add(rd, rd, rd), s);
      ExecAppend([Add(rd, rd, rd)], Doubles(rd, n - 1), s);
      DoublesRuns(rd, n - 1, s1);
      WrapMul(Rd(s.r, rd) + Rd(s.r, rd), Pow2(n - 1));
      assert (Rd(s.r, rd) + Rd(s.r, rd)) * Pow2(n - 1) == Rd(s.r, rd) * Pow2(n);
    }
  }

  lemma WrapMul(x: int, p: int)
    ensures Wrap(Wrap(x) * p) == Wrap(x * p)
  {
    var q := x / W32;
    assert x == W32 * q + x % W32;
    assert x * p == Wrap(x) * p + W32 * (q * p);
    WrapAround(Wrap(x) * p, q * p);
  }

  lemma SlliSmallRuns(rd: Reg, rs: Reg, imm: nat, s: State)
    requires rd != ZERO && 1 <= imm < 16
    ensures var s' := Exec(Slli(rd, rs, imm), s);
      s'.m == s.m && OnlyRegs(s.r, s'.r, rd, rd, rd) && Rd(s'.r, rd) == Wrap(Rd(s.r, rs) * Pow2(imm))
  {
    hide Exec, Rd, Set, Wrap;
    var s1 := Step(Add(rd, rs, rs), s);
    Exec1(Add(rd, rs, rs), s);
    ExecAppend([Add(rd, rs, rs)], Doubles(rd, imm - 1), s);
    DoublesRuns(rd, imm - 1, s1);
    WrapMul(Rd(s.r, rs) + Rd(s.r, rs), Pow2(imm - 1));
    Pow2Step(imm);
    assert (Rd(s.r, rs) + Rd(s.r, rs)) * Pow2(imm - 1) == Rd(s.r, rs) * Pow2(imm);
  }
}
