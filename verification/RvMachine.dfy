/** The base instructions that rvmini keeps, on 32 registers and a byte
    memory, as the RISC-V Unprivileged ISA 20191213 defines them (sections 2.4
    to 2.6). Words are integers below 2^32. */
module RvMachine {
  const W32 := 0x1_0000_0000

  type Word = w: int | 0 <= w < 0x1_0000_0000
  type Byte = b: int | 0 <= b < 256
  type Reg = r: int | 0 <= r < 32

  const ZERO: Reg := 0
  const SP: Reg := 2
  const GP: Reg := 3
  const TP: Reg := 4
  const S0: Reg := 8
  const S1: Reg := 9

  type Mem = map<Word, Byte>
  type Regs = r: seq<Word> | |r| == 32 witness seq(32, i => 0)

  datatype State = State(r: Regs, m: Mem)

  datatype Instr =
    | Add(rd: Reg, rs1: Reg, rs2: Reg)
    | Addi(rd: Reg, rs1: Reg, imm: int)
    | Lui(rd: Reg, upper: Word)
    | Lw(rd: Reg, off: int, base: Reg)
    | Lbu(rd: Reg, off: int, base: Reg)
    | Sw(rs: Reg, off: int, base: Reg)
    | Sb(rs: Reg, off: int, base: Reg)

  type Code = seq<Instr>

  // ---- words, bytes, registers and memory ----

  function Wrap(x: int): Word { x % 0x1_0000_0000 }

  /** The effective address of an access. */
  function Ea(base: Word, off: int): Word { Wrap(base + off) }

  function Rd(r: Regs, x: Reg): Word { if x == ZERO then 0 else r[x] }

  function Set(r: Regs, rd: Reg, v: Word): (r': Regs)
    ensures forall x :: Rd(r', x) == if x == rd && x != ZERO then v else Rd(r, x)
  {
    if rd == ZERO then r else r[rd := v]
  }

  /** Memory reads as 0 where nothing was ever stored. */
  function Ld(m: Mem, a: Word): Byte { if a in m then m[a] else 0 }

  function St(m: Mem, a: Word, v: Byte): (m': Mem)
    ensures forall x :: Ld(m', x) == if x == a then v else Ld(m, x)
  {
    m[a := v]
  }

  function B0(w: Word): Byte { w % 0x100 }
  function B1(w: Word): Byte { w / 0x100 % 0x100 }
  function B2(w: Word): Byte { w / 0x1_0000 % 0x100 }
  function B3(w: Word): Byte { w / 0x100_0000 }

  /** The value of bytes in little-endian order. */
  function Le(bs: seq<Byte>): nat {
    if bs == [] then 0 else bs[0] + 0x100 * Le(bs[1..])
  }

  function W4(b0: Byte, b1: Byte, b2: Byte, b3: Byte): Word {
    LeSum(b0, b1, b2, b3);
    Le([b0, b1, b2, b3])
  }

  lemma LeSum(b0: Byte, b1: Byte, b2: Byte, b3: Byte)
    ensures Le([b0, b1, b2, b3]) == b0 + 0x100 * b1 + 0x1_0000 * b2 + 0x100_0000 * b3
  {
    assert Le([b3]) == b3;
    assert [b2, b3][1..] == [b3];
    assert Le([b2, b3]) == b2 + 0x100 * b3;
    assert [b1, b2, b3][1..] == [b2, b3];
    assert Le([b1, b2, b3]) == b1 + 0x100 * b2 + 0x1_0000 * b3;
    assert [b0, b1, b2, b3][1..] == [b1, b2, b3];
  }

  lemma WordSum(b0: Byte, b1: Byte, b2: Byte, b3: Byte)
    ensures W4(b0, b1, b2, b3) == b0 + 0x100 * b1 + 0x1_0000 * b2 + 0x100_0000 * b3
  {
    LeSum(b0, b1, b2, b3);
  }

  /** Little-endian word access, at any alignment. */
  function LdW(m: Mem, base: Word, off: int): Word {
    W4(Ld(m, Ea(base, off)), Ld(m, Ea(base, off + 1)), Ld(m, Ea(base, off + 2)), Ld(m, Ea(base, off + 3)))
  }

  function StW(m: Mem, base: Word, off: int, v: Word): Mem {
    St(St(St(St(m, Ea(base, off), B0(v)), Ea(base, off + 1), B1(v)), Ea(base, off + 2), B2(v)), Ea(base, off + 3),
      B3(v))
  }

  lemma FourBytes(w: Word)
    ensures W4(B0(w), B1(w), B2(w), B3(w)) == w
  {
    WordSum(B0(w), B1(w), B2(w), B3(w));
    var a, b := w / 0x100, w / 0x1_0000;
    assert b == a / 0x100;
    assert w / 0x100_0000 == b / 0x100;
  }

  lemma BytesOf(b0: Byte, b1: Byte, b2: Byte, b3: Byte)
    ensures var w := W4(b0, b1, b2, b3); B0(w) == b0 && B1(w) == b1 && B2(w) == b2 && B3(w) == b3
  {
    WordSum(b0, b1, b2, b3);
    var w := W4(b0, b1, b2, b3);
    Split(w, b0, b1 + 0x100 * b2 + 0x1_0000 * b3);
    Split(b1 + 0x100 * b2 + 0x1_0000 * b3, b1, b2 + 0x100 * b3);
    Split(b2 + 0x100 * b3, b2, b3);
    DivChain(w);
  }

  lemma Split(x: nat, lo: Byte, hi: nat)
    requires x == lo + 0x100 * hi
    ensures x % 0x100 == lo && x / 0x100 == hi
  {
  }

  lemma DivChain(w: nat)
    ensures w / 0x1_0000 == w / 0x100 / 0x100
    ensures w / 0x100_0000 == w / 0x100 / 0x100 / 0x100
  {
    assert w / 0x1_0000 == w / 0x100 / 0x100;
  }

  /** Offsets less than 2^32 apart give different addresses. */
  lemma EaInjective(base: Word, i: int, j: int)
    requires -W32 < i - j < W32
    ensures Ea(base, i) == Ea(base, j) <==> i == j
  {
    var x, y := base + i, base + j;
    assert x == W32 * (x / W32) + x % W32 && y == W32 * (y / W32) + y % W32;
  }

  lemma WrapSmall(x: int)
    requires 0 <= x < W32
    ensures Wrap(x) == x
  {
  }

  lemma WrapTwice(x: int, y: int)
    ensures Wrap(Wrap(x) + y) == Wrap(x + y)
  {
    var q := x / W32;
    assert x == W32 * q + x % W32;
    assert (x % W32 + y) + W32 * q == x + y;
    WrapAround(x % W32 + y, q);
  }

  lemma WrapAround(x: int, q: int)
    ensures Wrap(x + W32 * q) == Wrap(x)
  {
    assert x == W32 * (x / W32) + x % W32;
    assert x + W32 * q == W32 * (x / W32 + q) + x % W32;
  }

  // ---- execution ----

  function Step(i: Instr, s: State): State {
    match i
    case Add(rd, rs1, rs2) => s.(r := Set(s.r, rd, Wrap(Rd(s.r, rs1) + Rd(s.r, rs2))))
    case Addi(rd, rs1, imm) => s.(r := Set(s.r, rd, Wrap(Rd(s.r, rs1) + imm)))
    case Lui(rd, upper) => s.(r := Set(s.r, rd, upper))
    case Lw(rd, off, base) => s.(r := Set(s.r, rd, LdW(s.m, Rd(s.r, base), off)))
    case Lbu(rd, off, base) => s.(r := Set(s.r, rd, Ld(s.m, Ea(Rd(s.r, base), off))))
    case Sw(rs, off, base) => s.(m := StW(s.m, Rd(s.r, base), off, Rd(s.r, rs)))
    case Sb(rs, off, base) => s.(m := St(s.m, Ea(Rd(s.r, base), off), B0(Rd(s.r, rs))))
  }

  /** Straight-line execution. */
  function Exec(code: Code, s: State): State {
    if code == [] then s else Exec(code[1..], Step(code[0], s))
  }

  lemma {:induction false} ExecAppend(a: Code, b: Code, s: State)
    ensures Exec(a + b, s) == Exec(b, Exec(a, s))
  {
    hide Step;
    if a == [] {
      assert a + b == b;
    } else {
      assert (a + b)[0] == a[0] && (a + b)[1..] == a[1..] + b;
      ExecAppend(a[1..], b, Step(a[0], s));
    }
  }

  lemma Exec1(a: Instr, s: State)
    ensures Exec([a], s) == Step(a, s)
  {
    hide Step;
    var c := [a];
    assert c[1..] == [];
    assert Exec(c, s) == Exec(c[1..], Step(a, s));
  }

  lemma Exec2(a: Instr, b: Instr, s: State)
    ensures Exec([a, b], s) == Step(b, Step(a, s))
  {
    hide Step;
    assert [a, b] == [a] + [b];
    ExecAppend([a], [b], s);
    Exec1(a, s);
    Exec1(b, Step(a, s));
  }

  lemma Exec3(a: Instr, b: Instr, c: Instr, s: State)
    ensures Exec([a, b, c], s) == Step(c, Step(b, Step(a, s)))
  {
    hide Step;
    assert [a, b, c] == [a, b] + [c];
    ExecAppend([a, b], [c], s);
    Exec2(a, b, s);
    Exec1(c, Step(b, Step(a, s)));
  }

  lemma Exec4(a: Instr, b: Instr, c: Instr, d: Instr, s: State)
    ensures Exec([a, b, c, d], s) == Step(d, Step(c, Step(b, Step(a, s))))
  {
    hide Step;
    assert [a, b, c, d] == [a, b] + [c, d];
    ExecAppend([a, b], [c, d], s);
    Exec2(a, b, s);
    Exec2(c, d, Step(b, Step(a, s)));
  }
}
