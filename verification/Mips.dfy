/** The reference machine: the MIPS I integer instructions over thirty-two registers, HI and LO, and a
    big-endian byte memory.  `None` is a trap or a result the architecture leaves undefined. */
module Mips {
  import opened Words
  import opened Options
  import opened BigEndian

  // ----- registers, numbered as in mips.hh -----

  type Register = r: nat | r < N_REGS
  const N_REGS: nat := 86
  const R_ZERO: Register := 0
  const R_V0: Register := 2
  const R_V1: Register := 3
  const R_A0: Register := 4
  const R_A1: Register := 5
  const R_A2: Register := 6
  const R_A3: Register := 7
  const R_SP: Register := 29
  const R_RA: Register := 31
  const R_HI: Register := 32
  const R_LO: Register := 33
  const R_MADR: Register := 81
  const R_FNA: Register := 84
  const R_MEM: Register := 85

  /** A register field of an instruction. */
  type Field = r: nat | r < 32

  // ----- instructions -----

  datatype AluOp = Add | Addu | Sub | Subu | BitAnd | BitOr | BitXor | BitNor | Slt | Sltu | Sllv | Srlv | Srav
  datatype ShiftOp = Sll | Srl | Sra
  datatype ImmOp = Addi | Addiu | Andi | Ori | Xori | Slti | Sltiu
  datatype LoadOp = Lw | Lb | Lbu | Lh | Lhu
  datatype StoreOp = Sw | Sb | Sh
  datatype MulDivOp = Mult | Multu | Div | Divu
  datatype Condition = Eq | Ne | Gez | Gtz | Lez | Ltz

  /** An immediate: sign-extended for arithmetic and addresses, zero-extended for the logical ones. */
  type Immediate = n: int | -0x8000 <= n < 0x1_0000

  datatype Insn =
    | Nop
    | Alu(aop: AluOp, rs: Field, rt: Field, rd: Field)
    | Shift(sop: ShiftOp, rt: Field, rd: Field, amount: nat)
    | Imm(iop: ImmOp, rs: Field, rt: Field, imm: Immediate)
    | Lui(rt: Field, high: nat)
    | Load(lop: LoadOp, rs: Field, rt: Field, offset: Immediate)
    | Store(stop: StoreOp, rs: Field, rt: Field, offset: Immediate)
    | MulDiv(mop: MulDivOp, rs: Field, rt: Field)
    | Mfhi(rd: Field)
    | Mflo(rd: Field)
    | Branch(cond: Condition, rs: Field, rt: Field, offset: Immediate)
    | Jump(target: Word)
    | Jal(target: Word)
    | Jalr(rs: Field)
    | Jr(rs: Field)
  {
    predicate IsBranch() {
      Branch? || Jump? || Jal? || Jalr? || Jr?
    }
  }

  /** What the encoding guarantees: a five-bit shift amount, a sixteen-bit upper half, and immediates
      extended as their opcode demands. */
  predicate Encodable(insn: Insn) {
    match insn
    case Shift(_, _, _, amount) => amount < 32
    case Lui(_, high) => high < 0x1_0000
    case Imm(op, _, _, imm) => if op in {Andi, Ori, Xori} then 0 <= imm else imm < 0x8000
    case Load(_, _, _, offset) => offset < 0x8000
    case Store(_, _, _, offset) => offset < 0x8000
    case Branch(_, _, _, offset) => offset < 0x8000
    case _ => true
  }

  // ----- machine state -----

  type RegisterFile = s: seq<Word> | |s| == 34 witness seq(34, _ => 0)

  datatype State = State(regs: RegisterFile, mem: seq<Byte>)
  {
    /** Register zero reads as zero. */
    function Reg(r: nat): Word
      requires r < 34
    {
      if r == 0 then 0 else regs[r]
    }

    function Set(r: nat, v: Word): State
      requires r < 34
    {
      if r == 0 then this else this.(regs := regs[r := v])
    }

    function Address(base: Field, offset: int): Word {
      Wrap(Reg(base) + offset)
    }
  }

  // ----- instruction meanings -----

  predicate Overflows(x: int) {
    x < -0x8000_0000 || x >= 0x8000_0000
  }

  function AluResult(op: AluOp, a: Word, b: Word): Option<Word> {
    match op
    case Add => if Overflows(Signed(a) + Signed(b)) then None else Some(Wrap(a + b))
    case Addu => Some(Wrap(a + b))
    case Sub => if Overflows(Signed(a) - Signed(b)) then None else Some(Wrap(a - b))
    case Subu => Some(Wrap(a - b))
    case BitAnd => Some(WordAnd(a, b))
    case BitOr => Some(WordOr(a, b))
    case BitXor => Some(WordXor(a, b))
    case BitNor => Some(0xFFFF_FFFF - WordOr(a, b))
    case Slt => Some(if Signed(a) < Signed(b) then 1 else 0)
    case Sltu => Some(if a < b then 1 else 0)
    case Sllv => Some(ShiftLeft(b, a % 32))
    case Srlv => Some(ShiftRightLogical(b, a % 32))
    case Srav => Some(ShiftRightArith(b, a % 32))
  }

  function ShiftResult(op: ShiftOp, b: Word, amount: nat): Word {
    match op
    case Sll => ShiftLeft(b, amount)
    case Srl => ShiftRightLogical(b, amount)
    case Sra => ShiftRightArith(b, amount)
  }

  function ImmResult(op: ImmOp, a: Word, imm: Immediate): Option<Word> {
    match op
    case Addi => if Overflows(Signed(a) + imm) then None else Some(Wrap(a + imm))
    case Addiu => Some(Wrap(a + imm))
    case Andi => Some(WordAnd(a, Wrap(imm)))
    case Ori => Some(WordOr(a, Wrap(imm)))
    case Xori => Some(WordXor(a, Wrap(imm)))
    case Slti => Some(if Signed(a) < imm then 1 else 0)
    case Sltiu => Some(if a < Wrap(imm) then 1 else 0)
  }

  /** An aligned load; an unaligned or unmapped address is an address error. */
  function LoadResult(op: LoadOp, mem: seq<Byte>, a: Word): Option<Word> {
    match op
    case Lw => if a % 4 == 0 && a + 3 < |mem| then Some(Join(mem[a], mem[a + 1], mem[a + 2], mem[a + 3])) else None
    case Lb => if a < |mem| then Some(SignExtend8(mem[a])) else None
    case Lbu => if a < |mem| then Some(mem[a]) else None
    case Lh => if a % 2 == 0 && a + 1 < |mem| then Some(SignExtend16(Short(mem[a], mem[a + 1]))) else None
    case Lhu => if a % 2 == 0 && a + 1 < |mem| then Some(Short(mem[a], mem[a + 1])) else None
  }

  function StoreResult(op: StoreOp, mem: seq<Byte>, a: Word, v: Word): Option<seq<Byte>> {
    match op
    case Sw =>
      if a % 4 == 0 && a + 3 < |mem|
      then Some(mem[a := ByteOf(v, 0)][a + 1 := ByteOf(v, 1)][a + 2 := ByteOf(v, 2)][a + 3 := ByteOf(v, 3)]) else None
    case Sb => if a < |mem| then Some(mem[a := v % 0x100]) else None
    case Sh => if a % 2 == 0 && a + 1 < |mem| then Some(mem[a := v / 0x100 % 0x100][a + 1 := v % 0x100]) else None
  }

  /** The values left in HI and LO. */
  function MulDivResult(op: MulDivOp, a: Word, b: Word): Option<(Word, Word)> {
    match op
    case Mult => var p := Signed(a) * Signed(b); Some((Wrap(p / 0x1_0000_0000), Wrap(p)))
    case Multu => var p := a * b; Some((Wrap(p / 0x1_0000_0000), Wrap(p)))
    case Div =>
      if b == 0 then None
      else Some((Wrap(TruncMod(Signed(a), Signed(b))), Wrap(TruncDiv(Signed(a), Signed(b)))))
    case Divu => if b == 0 then None else Some((a % b, a / b))
  }

  /** One instruction that is not a branch. */
  function Execute(insn: Insn, m: State): Option<State>
    requires !insn.IsBranch()
  {
    match insn
    case Nop => Some(m)
    case Alu(op, rs, rt, rd) =>
      var r := AluResult(op, m.Reg(rs), m.Reg(rt));
      if r == None then None else Some(m.Set(rd, r.value))
    case Shift(op, rt, rd, amount) => Some(m.Set(rd, ShiftResult(op, m.Reg(rt), amount)))
    case Imm(op, rs, rt, imm) =>
      var r := ImmResult(op, m.Reg(rs), imm);
      if r == None then None else Some(m.Set(rt, r.value))
    case Lui(rt, high) => Some(m.Set(rt, Wrap(high * 0x1_0000)))
    case Load(op, rs, rt, offset) =>
      var r := LoadResult(op, m.mem, m.Address(rs, offset));
      if r == None then None else Some(m.Set(rt, r.value))
    case Store(op, rs, rt, offset) =>
      var r := StoreResult(op, m.mem, m.Address(rs, offset), m.Reg(rt));
      if r == None then None else Some(m.(mem := r.value))
    case MulDiv(op, rs, rt) =>
      var r := MulDivResult(op, m.Reg(rs), m.Reg(rt));
      if r == None then None else Some(m.Set(R_HI, r.value.0).Set(R_LO, r.value.1))
    case Mfhi(rd) => Some(m.Set(rd, m.Reg(R_HI)))
    case Mflo(rd) => Some(m.Set(rd, m.Reg(R_LO)))
  }

  /** Whether a conditional branch is taken. */
  predicate Taken(cond: Condition, a: Word, b: Word) {
    match cond
    case Eq => a == b
    case Ne => a != b
    case Gez => Signed(a) >= 0
    case Gtz => Signed(a) > 0
    case Lez => Signed(a) <= 0
    case Ltz => Signed(a) < 0
  }
}
