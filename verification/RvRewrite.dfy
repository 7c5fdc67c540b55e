/** The expansion of every source instruction into base instructions. */
module RvRewrite {
  import opened RvMachine
  import opened RvTables
  import opened RvMacros
  import opened RvIsa
  import opened RvLogic

  /** A run of straight code, and the jalr that may end it. */
  datatype Exit = Next | Jump(rd: Reg, base: Reg, off: int)
  datatype Block = Block(body: Code, exit: Exit)

  /** The register-register macros. */
  function Rtype(t: Tables, op: Alu, rd: Reg, rs1: Reg, rs2: Reg): Code {
    match op
    case ADD => [Add(rd, rs1, rs2)]
    case SUB => Sub(t, rd, rs1, rs2)
    case SLL => Sll(t, rd, rs1, rs2)
    case SLT => SltTemplate(t, t.slt1, rd, rs1, rs2)
    case SLTU => SltTemplate(t, t.sltu1, rd, rs1, rs2)
    case XOR => Logic(TableOf(t, XorOp), rd, rs1, rs2)
    case SRL => ShiftRight(t, rd, rs1, rs2, false)
    case SRA => ShiftRight(t, rd, rs1, rs2, true)
    case OR => Logic(TableOf(t, OrOp), rd, rs1, rs2)
    case AND => Logic(TableOf(t, AndOp), rd, rs1, rs2)
  }

  /** addi stays; the other immediates go through tp. */
  function Itype(t: Tables, op: Alu, rd: Reg, rs1: Reg, imm: int): Code {
    if op == ADD then [Addi(rd, rs1, imm)] else [Li(TP, imm)] + Rtype(t, op, rd, rs1, TP)
  }

  function ShiftByConstant(t: Tables, op: Alu, rd: Reg, rs1: Reg, shamt: nat): Code {
    if op == SLL then Slli(rd, rs1, shamt) else ShiftRightImm(t, rd, rs1, shamt, op == SRA)
  }

  function LoadCode(t: Tables, load: LoadKind, rd: Reg, off: int, base: Reg): Code {
    match load
    case LB => Lb(t, rd, off, base)
    case LH => Lh(t, rd, off, base)
    case LW => [Lw(rd, off, base)]
    case LBU => [Lbu(rd, off, base)]
    case LHU => Lhu(rd, off, base)
  }

  function StoreCode(store: StoreKind, rs: Reg, off: int, base: Reg): Code {
    match store
    case SB => [Sb(rs, off, base)]
    case SH => Sh(rs, off, base)
    case SW => [Sw(rs, off, base)]
  }

  /** Leaves 0 or 1 in tp; the branches against x0 have shorter tests. */
  function Compare(t: Tables, cond: Cond, rs1: Reg, rs2: Reg): Code {
    match cond
    case BEQ => if rs2 == ZERO then Seqz(t, TP, rs1) else if rs1 == ZERO then Seqz(t, TP, rs2) else Seq(t, TP, rs1, rs2)
    case BNE => if rs2 == ZERO then Seqz(t, TP, rs1) else if rs1 == ZERO then Seqz(t, TP, rs2) else Seq(t, TP, rs1, rs2)
    case BLT =>
      if rs2 == ZERO then Msb(TP, rs1)
      else if rs1 == ZERO then NotPositive(t, rs2)
      else SltTemplate(t, t.slt1, TP, rs1, rs2)
    case BGE => if rs1 == ZERO then NotPositive(t, rs2) else SltTemplate(t, t.slt1, TP, rs1, rs2)
    case BLTU => SltTemplate(t, t.sltu1, TP, rs1, rs2)
    case BGEU => SltTemplate(t, t.sltu1, TP, rs1, rs2)
  }

  /** is_tp_high_sel_target: whether tp = 1 means that the branch is taken. */
  function HighTakes(cond: Cond, rs1: Reg, rs2: Reg): bool {
    match cond
    case BEQ => true
    case BNE => false
    case BLT => rs2 == ZERO || rs1 != ZERO
    case BGE => rs1 == ZERO
    case BLTU => true
    case BGEU => false
  }

  function BranchCode(t: Tables, cond: Cond, rs1: Reg, rs2: Reg, next: Word, target: Word): Code {
    Compare(t, cond, rs1, rs2) +
    if HighTakes(cond, rs1, rs2) then BranchSelect(target, next) else BranchSelect(next, target)
  }

  /** The expansion of i, when `next` and `target` are the addresses of the
      instruction that follows and of the one that i names. */
  function Expand(t: Tables, i: Src, next: Word, target: Word): Block {
    match i
    case Reg3(op, rd, rs1, rs2) => Block(Rtype(t, op, rd, rs1, rs2), Next)
    case RegImm(op, rd, rs1, imm) => Block(Itype(t, op, rd, rs1, imm), Next)
    case ShiftImm(op, rd, rs1, shamt) => Block(ShiftByConstant(t, op, rd, rs1, shamt), Next)
    case SetZero(rd, rs1) => Block(Seqz(t, rd, rs1), Next)
    case LoadUpper(rd, upper) => Block([Lui(rd, upper)], Next)
    case Load(load, rd, off, base) => Block(LoadCode(t, load, rd, off, base), Next)
    case Store(store, rs, off, base) => Block(StoreCode(store, rs, off, base), Next)
    case Branch(cond, rs1, rs2, _) => Block(BranchCode(t, cond, rs1, rs2, next, target), Jump(ZERO, TP, 0))
    case JumpLink(rd, _) => if rd == ZERO then Block(La(TP, target), Jump(TP, TP, 0))
      else Block(La(rd, target), Jump(rd, rd, 0))
    case JumpReg(rd, base, off) => Block([], Jump(rd, base, off))
  }

  // ---- what a program may contain ----

  /** A register that the compiler may use. */
  predicate Free(x: Reg) { x != GP && x != TP }

  /** A destination of an expanded instruction. */
  predicate Target(x: Reg) { Free(x) && x != SP }

  predicate IsLogic(op: Alu) { op == AND || op == OR || op == XOR }

  predicate IsShift(op: Alu) { op == SLL || op == SRL || op == SRA }

  /** The operands that the macros take: tp and gp are never used, an expanded
      instruction does not write sp, logic rejects sp altogether, and seqz cannot
      write s0 (RvEqual.SeqzExact). */
  predicate Supported(i: Src) {
    match i
    case Reg3(op, rd, rs1, rs2) =>
      && Free(rd) && Free(rs1) && Free(rs2) && (op != ADD ==> rd != SP)
      && (IsLogic(op) ==> rd == ZERO || (rs1 != SP && rs2 != SP))
    case RegImm(op, rd, rs1, imm) =>
      && Free(rd) && Free(rs1) && (op != ADD ==> rd != SP) && op != SUB && !IsShift(op)
      && (IsLogic(op) ==> rd == ZERO || rs1 != SP)
    case ShiftImm(op, rd, rs1, shamt) => Target(rd) && Free(rs1) && IsShift(op) && shamt < 32
    case SetZero(rd, rs1) => Target(rd) && rd != S0 && Free(rs1)
    case LoadUpper(rd, _) => Free(rd)
    case Load(load, rd, off, base) => Free(rd) && Free(base) && (load != LW && load != LBU ==> rd != SP)
    case Store(_, rs, _, base) => Free(rs) && Free(base)
    case Branch(_, rs1, rs2, _) => Free(rs1) && Free(rs2)
    case JumpLink(rd, _) => Free(rd)
    case JumpReg(rd, base, _) => Free(rd) && Free(base)
  }

  /** What the surroundings of an instruction must be: the words below sp
      overlap no table, it loads no byte that is scratch, and it stores into no
      constant table. */
  ghost predicate Allowed(t: Tables, i: Src, r: Regs) {
    && Clear(t, Rd(r, SP))
    && (forall a :: LoadsFrom(i, r, a) ==> !Scratch(Rd(r, SP), a) && !InCheck(t, a))
    && (forall a :: StoresTo(i, r, a) ==> !InRom(t, a))
  }
}
