/** The RV32I instructions that rvmini rewrites, and what they mean
    (RISC-V Unprivileged ISA 20191213, sections 2.4 to 2.6). */
module RvIsa {
  import opened Bits
  import opened RvMachine
  import opened RvTables

  datatype Alu = ADD | SUB | SLL | SLT | SLTU | XOR | SRL | SRA | OR | AND
  datatype LoadKind = LB | LH | LW | LBU | LHU
  datatype StoreKind = SB | SH | SW
  datatype Cond = BEQ | BNE | BLT | BGE | BLTU | BGEU

  /** SetZero is seqz rd, rs1, the assembler's name for sltiu rd, rs1, 1, which
      has a macro of its own. Branches and jumps name the index of their target in the program. */
  datatype Src =
    | Reg3(op: Alu, rd: Reg, rs1: Reg, rs2: Reg)
    | RegImm(op: Alu, rd: Reg, rs1: Reg, imm: int)
    | ShiftImm(op: Alu, rd: Reg, rs1: Reg, shamt: nat)
    | SetZero(rd: Reg, rs1: Reg)
    | LoadUpper(rd: Reg, upper: Word)
    | Load(load: LoadKind, rd: Reg, off: int, base: Reg)
    | Store(store: StoreKind, rs: Reg, off: int, base: Reg)
    | Branch(cond: Cond, rs1: Reg, rs2: Reg, target: nat)
    | JumpLink(rd: Reg, target: nat)
    | JumpReg(rd: Reg, base: Reg, off: int)

  type Program = seq<Src>

  /** `a` shifted right by j, keeping its sign when arith. */
  function ShiftedRight(x: Word, j: nat, arith: bool): Word {
    if arith then Wrap(FloorDiv(Signed(x), Pow2(j))) else Wrap(Shr(x, j))
  }

  function SignExtend8(b: Byte): Word { if b >= 0x80 then b + 0xffff_ff00 else b }

  function SignExtend16(h: Word): Word
    requires h < 0x1_0000
  {
    if h >= 0x8000 then h + 0xffff_0000 else h
  }

  function Less(a: Word, b: Word, signed: bool): bool {
    if signed then Signed(a) < Signed(b) else a < b
  }

  /** Shifts use the low five bits of their second operand. */
  function AluResult(op: Alu, a: Word, b: Word): Word {
    match op
    case ADD => Wrap(a + b)
    case SUB => Wrap(a - b)
    case SLL => Wrap(a * Pow2(b % 32))
    case SLT => if Less(a, b, true) then 1 else 0
    case SLTU => if Less(a, b, false) then 1 else 0
    case XOR => Wrap(BitXor(a, b))
    case SRL => ShiftedRight(a, b % 32, false)
    case SRA => ShiftedRight(a, b % 32, true)
    case OR => Wrap(BitOr(a, b))
    case AND => Wrap(BitAnd(a, b))
  }

  function LdHalf(m: Mem, base: Word, off: int): (h: Word)
    ensures h < 0x1_0000
  {
    0x100 * Ld(m, Ea(base, off + 1)) + Ld(m, Ea(base, off))
  }

  function LoadResult(load: LoadKind, m: Mem, base: Word, off: int): Word {
    match load
    case LB => SignExtend8(Ld(m, Ea(base, off)))
    case LH => SignExtend16(LdHalf(m, base, off))
    case LW => LdW(m, base, off)
    case LBU => Ld(m, Ea(base, off))
    case LHU => LdHalf(m, base, off)
  }

  function StoreResult(store: StoreKind, m: Mem, base: Word, off: int, v: Word): Mem {
    match store
    case SB => St(m, Ea(base, off), B0(v))
    case SH => St(St(m, Ea(base, off), B0(v)), Ea(base, off + 1), B1(v))
    case SW => StW(m, base, off, v)
  }

  function Taken(cond: Cond, a: Word, b: Word): bool {
    match cond
    case BEQ => a == b
    case BNE => a != b
    case BLT => Less(a, b, true)
    case BGE => !Less(a, b, true)
    case BLTU => Less(a, b, false)
    case BGEU => !Less(a, b, false)
  }

  /** Registers and memory after an instruction; `next` is the address of the
      instruction that follows. */
  function DataStep(i: Src, s: State, next: Word): State {
    match i
    case Reg3(op, rd, rs1, rs2) => s.(r := Set(s.r, rd, AluResult(op, Rd(s.r, rs1), Rd(s.r, rs2))))
    case RegImm(op, rd, rs1, imm) => s.(r := Set(s.r, rd, AluResult(op, Rd(s.r, rs1), Wrap(imm))))
    case ShiftImm(op, rd, rs1, shamt) => s.(r := Set(s.r, rd, AluResult(op, Rd(s.r, rs1), Wrap(shamt))))
    case SetZero(rd, rs1) => s.(r := Set(s.r, rd, AluResult(SLTU, Rd(s.r, rs1), 1)))
    case LoadUpper(rd, upper) => s.(r := Set(s.r, rd, upper))
    case Load(load, rd, off, base) => s.(r := Set(s.r, rd, LoadResult(load, s.m, Rd(s.r, base), off)))
    case Store(store, rs, off, base) => s.(m := StoreResult(store, s.m, Rd(s.r, base), off, Rd(s.r, rs)))
    case Branch(_, _, _, _) => s
    case JumpLink(rd, _) => s.(r := Set(s.r, rd, next))
    case JumpReg(rd, _, _) => s.(r := Set(s.r, rd, next))
  }

  function LoadWidth(load: LoadKind): nat {
    match load
    case LB => 1
    case LH => 2
    case LW => 4
    case LBU => 1
    case LHU => 2
  }

  function StoreWidth(store: StoreKind): nat {
    match store
    case SB => 1
    case SH => 2
    case SW => 4
  }

  /** a is one of the `width` bytes of an access. */
  predicate Touches(base: Word, off: int, width: nat, a: Word) {
    || (width >= 1 && a == Ea(base, off))
    || (width >= 2 && a == Ea(base, off + 1))
    || (width >= 4 && (a == Ea(base, off + 2) || a == Ea(base, off + 3)))
  }

  predicate LoadsFrom(i: Src, r: Regs, a: Word) {
    i.Load? && Touches(Rd(r, i.base), i.off, LoadWidth(i.load), a)
  }

  predicate StoresTo(i: Src, r: Regs, a: Word) {
    i.Store? && Touches(Rd(r, i.base), i.off, StoreWidth(i.store), a)
  }

  /** The target of jalr: its lowest bit is cleared. */
  function JumpAddress(base: Word, off: int): Word { Wrap(base + off) / 2 * 2 }
}
