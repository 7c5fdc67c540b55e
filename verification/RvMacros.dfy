/** The macros of inst-replace.h, as functions from operands to base code. */
module RvMacros {
  import opened RvMachine
  import opened RvTables

  // Offsets of SP_VAR(n): three save slots and the words A to D.
  const V1 := -4
  const V2 := -8
  const V3 := -12
  const VA := -16
  const VB := -20
  const VC := -24
  const VD := -28

  // ---- pseudo-instructions ----

  /** %lo: the sign-extended low twelve bits; %hi: what must be added to them. */
  function Lo(addr: Word): int { (addr + 0x800) % 0x1000 - 0x800 }

  function Hi(addr: Word): Word { Wrap(addr - Lo(addr)) }

  function La(r: Reg, addr: Word): Code { [Lui(r, Hi(addr)), Addi(r, r, Lo(addr))] }

  function Mv(rd: Reg, rs: Reg): Instr { Addi(rd, rs, 0) }

  function Li(rd: Reg, imm: int): Instr { Addi(rd, ZERO, imm) }

  // ---- bytes, negation, subtraction ----

  function GetByte(rd: Reg, rs: Reg, k: int): Code { [Sw(rs, VC, SP), Lbu(rd, VC + k, SP)] }

  function Msb(rd: Reg, rs: Reg): Code { GetByte(rd, rs, 3) + Slli(rd, rd, 1) + GetByte(rd, rd, 1) }

  function NotByte(k: int): Code {
    [Lbu(GP, VC + k, SP), Add(GP, GP, TP), Lbu(GP, 0, GP), Sb(GP, VD + k, SP)]
  }

  function Not(t: Tables, rd: Reg, rs: Reg): Code {
    [Sw(GP, V3, SP), Sw(rs, VC, SP)] + La(TP, Wrap(t.lst + XOR8 + (0xff * 256))) +
    NotByte(3) + NotByte(2) + NotByte(1) + NotByte(0) + [Lw(GP, V3, SP), Lw(rd, VD, SP)]
  }

  function Sub(t: Tables, rd: Reg, rs1: Reg, rs2: Reg): Code {
    Not(t, TP, rs2) + [Add(rd, rs1, TP), Addi(rd, rd, 1)]
  }

  // ---- comparison ----

  function SltSave(rs1: Reg, rs2: Reg): Code {
    [Sw(S0, V1, SP), Sw(S1, V2, SP), Sw(rs2, VA, SP), Mv(S0, rs1), Lw(S1, VA, SP)]
  }

  function SltSigns(): Code {
    Msb(GP, S0) + Slli(GP, GP, 1) + Msb(TP, S1) + [Add(GP, GP, TP)] + Slli(GP, GP, 1)
  }

  function SltDiff(t: Tables): Code {
    Sub(t, TP, S0, S1) + Msb(TP, TP) + [Add(GP, GP, TP)]
  }

  function SltLookup(lut: Word, rd: Reg): Code {
    La(TP, lut) + [Add(TP, TP, GP), Lw(S1, V2, SP), Lw(S0, V1, SP), Lbu(rd, 0, TP)]
  }

  function SltTemplate(t: Tables, lut: Word, rd: Reg, rs1: Reg, rs2: Reg): Code {
    SltSave(rs1, rs2) + SltSigns() + SltDiff(t) + SltLookup(lut, rd)
  }

  // ---- bitwise logic ----

  function LogicByte(lutReg: Reg, k: int): Code {
    [ Lbu(TP, VA + k, SP), Sb(TP, VD + 1, SP), Lbu(TP, VB + k, SP), Sb(TP, VD, SP),
      Lw(TP, VD, SP), Add(TP, lutReg, TP), Lbu(TP, 0, TP), Sb(TP, VC + k, SP) ]
  }

  function Logic(lut: Word, rd: Reg, rs1: Reg, rs2: Reg): Code {
    if rd == ZERO then []
    else
      [Sw(rs1, VA, SP), Sw(rs2, VB, SP)] + La(rd, lut) + [Sw(ZERO, VD, SP)] +
      LogicByte(rd, 3) + LogicByte(rd, 2) + LogicByte(rd, 1) + LogicByte(rd, 0) + [Lw(rd, VC, SP)]
  }

  // ---- equality ----

  function CheckSame(table: Reg, rd: Reg, k: int): Code {
    [ Lbu(rd, VA + k, SP), Add(TP, table, rd), Addi(rd, ZERO, 1), Sb(rd, 0, TP),
      Lbu(rd, VB + k, SP), Add(rd, table, rd), Sb(ZERO, 0, rd), Lbu(rd, 0, TP) ]
  }

  /** rd = 1 if gp is 0, else 0. */
  function SameResult(t: Tables, rd: Reg): Code {
    La(TP, t.same) + [Add(TP, TP, GP), Lbu(rd, 0, TP)]
  }

  function Seq(t: Tables, rd: Reg, rs1: Reg, rs2: Reg): Code {
    [Sw(rs1, VA, SP), Sw(rs2, VB, SP), Sw(S0, V1, SP), Sw(S1, V2, SP)] +
    La(S0, t.check) + CheckSame(S0, GP, 0) +
    CheckSame(S0, S1, 1) + [Add(GP, GP, S1)] +
    CheckSame(S0, S1, 2) + [Add(GP, GP, S1)] +
    CheckSame(S0, S1, 3) + [Add(GP, GP, S1)] +
    SameResult(t, rd) + [Lw(S1, V2, SP), Lw(S0, V1, SP)]
  }

  function CheckZero(table: Reg, rd: Reg, k: int): Code {
    [Lbu(rd, VA + k, SP), Add(rd, table, rd), Lbu(rd, 0, rd)]
  }

  function Seqz(t: Tables, rd: Reg, rs1: Reg): Code {
    [Sw(rs1, VA, SP), Sw(S0, V1, SP)] +
    La(S0, t.zero8) + CheckZero(S0, GP, 0) +
    CheckZero(S0, TP, 1) + [Add(GP, GP, TP)] +
    CheckZero(S0, TP, 2) + [Add(GP, GP, TP)] +
    CheckZero(S0, TP, 3) + [Add(GP, GP, TP)] +
    SameResult(t, rd) + [Lw(S0, V1, SP)]
  }

  // ---- shifts ----

  function GetShamt(t: Tables, rd: Reg, rs1: Reg): Code {
    [Sb(rs1, VB, SP), Lbu(rd, VB, SP)] + La(TP, Wrap(t.lst + (0x1f * 256))) + [Add(rd, rd, TP), Lbu(rd, 0, rd)]
  }

  function GetShiftByte(base: Reg, k: int): Code {
    [Lbu(TP, VA + k, SP)] + Slli(TP, TP, 2) + [Add(TP, base, TP), Lw(TP, 0, TP)]
  }

  /** s0 = the row of a shift table for the amount in rs2. */
  function ShiftRow(t: Tables, rs2: Reg, table: Word): Code {
    GetShamt(t, S0, rs2) + [Sw(ZERO, VB, SP), Sb(S0, VB + 1, SP), Lw(S0, VB, SP)] + Slli(S0, S0, 2) +
    La(TP, table) + [Add(S0, S0, TP)]
  }

  function SllHigh(): Code {
    [Sw(ZERO, VB, SP)] + GetShiftByte(S0, 3) + [Sb(TP, VB + 3, SP), Lw(GP, VB, SP)]
  }

  function SllLow(rd: Reg): Code {
    GetShiftByte(S0, 1) + Slli(TP, TP, 8) + [Add(GP, GP, TP)] +
    GetShiftByte(S0, 0) + [Lw(S0, V1, SP), Add(rd, GP, TP)]
  }

  function SllMid(): Code {
    GetShiftByte(S0, 2) + Sh(TP, VB + 2, SP) + [Lw(TP, VB, SP), Add(GP, GP, TP)]
  }

  function Sll(t: Tables, rd: Reg, rs1: Reg, rs2: Reg): Code {
    [Sw(S0, V1, SP), Sw(rs1, VA, SP)] + ShiftRow(t, rs2, Wrap(t.lst + SLL8)) + SllHigh() + SllMid() + SllLow(rd)
  }

  /** The table words of bytes 2, 1 and 0, in B, C and D. */
  function ShiftWords(): Code {
    GetShiftByte(S0, 2) + [Sw(TP, VB, SP)] + GetShiftByte(S0, 1) + [Sw(TP, VC, SP)] +
    GetShiftByte(S0, 0) + [Sw(TP, VD, SP)]
  }

  /** gp = bytes 2 to 0 of the result, without what byte 3 contributes. */
  function ShiftMix(): Code {
    [Lbu(GP, VB + 1, SP), Lbu(TP, VC + 2, SP), Add(GP, GP, TP), Lbu(TP, VD + 3, SP), Add(GP, GP, TP), Sw(GP, VD, SP)] +
    [Lbu(GP, VB + 2, SP), Lbu(TP, VC + 3, SP), Add(GP, GP, TP), Sb(GP, VD + 1, SP)] +
    [Lbu(GP, VB + 3, SP), Sb(GP, VD + 2, SP), Lw(GP, VD, SP)]
  }

  function ShiftTop(rd: Reg, arith: bool): Code {
    (if arith then La(TP, SRA8 - SRL8) + [Add(S0, S0, TP)] else []) +
    GetShiftByte(S0, 3) + [Lw(S0, V1, SP), Add(rd, GP, TP)]
  }

  /** The common end of the right shifts, from the row address in s0. */
  function ShiftRightRow(rd: Reg, arith: bool): Code {
    ShiftWords() + ShiftMix() + ShiftTop(rd, arith)
  }

  function ShiftRight(t: Tables, rd: Reg, rs1: Reg, rs2: Reg, arith: bool): Code {
    [Sw(S0, V1, SP), Sw(rs1, VA, SP)] + ShiftRow(t, rs2, Wrap(t.lst + SRL8)) + ShiftRightRow(rd, arith)
  }

  function ShiftRightImm(t: Tables, rd: Reg, rs1: Reg, imm: nat, arith: bool): Code {
    if imm == 24 then
      if arith then
        [Sw(rs1, VA, SP)] + La(TP, Wrap(t.lst + SRA8 + imm * 1024)) + [Lbu(rd, VA + 3, SP)] + Slli(rd, rd, 2) +
        [Add(TP, TP, rd), Lw(rd, 0, TP)]
      else GetByte(rd, rs1, 3)
    else
      [Sw(S0, V1, SP), Sw(rs1, VA, SP)] + La(S0, Wrap(t.lst + SRL8 + imm * 1024)) + ShiftRightRow(rd, arith)
  }

  function Doubles(rd: Reg, n: nat): Code {
    if n == 0 then [] else [Add(rd, rd, rd)] + Doubles(rd, n - 1)
  }

  function Slli(rd: Reg, rs1: Reg, imm: nat): Code
    decreases imm
  {
    if imm == 0 then if rd != rs1 then [Mv(rd, rs1)] else []
    else if imm >= 24 then [Sw(ZERO, VA, SP), Sb(rs1, VA + 3, SP), Lw(rd, VA, SP)] + Slli(rd, rd, imm - 24)
    else if imm >= 16 then [Sw(ZERO, VA, SP)] + Sh(rs1, VA + 2, SP) + [Lw(rd, VA, SP)] + Slli(rd, rd, imm - 16)
    else [Add(rd, rs1, rs1)] + Doubles(rd, imm - 1)
  }

  // ---- loads and stores ----

  function Lb(t: Tables, rd: Reg, off: int, base: Reg): Code {
    [Sw(ZERO, VA, SP), Lbu(rd, off, base), Sb(rd, VA + 3, SP), Lw(rd, VA, SP)] + ShiftRightImm(t, rd, rd, 24, true)
  }

  function Lhu(rd: Reg, off: int, base: Reg): Code {
    [ Sw(ZERO, VA, SP), Lbu(TP, 1 + off, base), Sb(TP, VA + 1, SP), Lw(TP, VA, SP),
      Lbu(rd, 0 + off, base), Add(rd, rd, TP) ]
  }

  function Lh(t: Tables, rd: Reg, off: int, base: Reg): Code {
    [Sw(ZERO, VA, SP), Lbu(GP, 1 + off, base), Sb(GP, VA + 3, SP), Lw(GP, VA, SP)] +
    ShiftRightImm(t, GP, GP, 16, true) + [Lbu(rd, 0 + off, base), Add(rd, rd, GP)]
  }

  function Sh(rs: Reg, off: int, base: Reg): Code {
    [Sb(rs, 0 + off, base)] + GetByte(TP, rs, 1) + [Sb(TP, 1 + off, base)]
  }

  // ---- branches ----

  /** tp = 1 becomes `high`, tp = 0 becomes `low`. */
  function BranchSelect(high: Word, low: Word): Code {
    Slli(TP, TP, 2) + [Add(TP, SP, TP)] + La(GP, high) + [Sw(GP, VA, SP)] + La(GP, low) + [Sw(GP, VB, SP)] +
    [Lw(TP, VB, TP)]
  }

  /** tp = 1 if the signed value of rs is at most 0, else 0. */
  function NotPositive(t: Tables, rs: Reg): Code {
    Msb(GP, rs) + [Addi(TP, rs, -1)] + Msb(TP, TP) + [Add(GP, GP, TP)] +
    La(TP, t.or1) + [Add(TP, GP, TP), Lbu(TP, 0, TP)]
  }
}
