/** The bytecode each MIPS instruction is translated to (tools/translator/emit.cc and instructions/), as
    functions of the register allocation.  Class `Emit` in Emitter.dfy produces these sequences. */
module Translation {
  import opened Words
  import opened Mips
  import opened Jvm

  /** `mips_to_local`: the local of each register, negative when it has none. */
  type Allocation = a: seq<int> | |a| == N_REGS witness seq(N_REGS, _ => -1)

  /** What of the configuration and of the enclosing method the emitted code depends on. */
  datatype Context = Context(ra: Allocation, usingHi: bool, inlines: bool)
  {
    predicate Allocated(r: Register) {
      ra[r] >= 0
    }
  }

  // ----- emit.cc -----

  /** `bc_pushconst`. */
  function PushConst(v: int): Bytecode {
    if v == -1 then Iconst(0xFFFF_FFFF)
    else if 0 <= v <= 5 then Iconst(v)
    else if -128 <= v <= 127 then Bipush(Wrap(v))
    else if -32768 <= v <= 32767 then Sipush(Wrap(v))
    else Ldc(Wrap(v))
  }

  /** `bc_pushconst_u`. */
  function PushUnsigned(v: Word): Bytecode {
    if v <= 5 then Iconst(v) else if v <= 127 then Bipush(v) else if v <= 32767 then Sipush(v) else Ldc(v)
  }

  /** `bc_pushregister`. */
  function PushRegister(c: Context, r: Register): Bytecode {
    if r == R_ZERO || !c.Allocated(r) then PushConst(0)
    else if r == R_MEM then Aload(c.ra[r])
    else Iload(c.ra[r])
  }

  /** `bc_popregister`: a register without a local gets an error comment and nothing is popped. */
  function PopRegister(c: Context, r: Register): seq<Bytecode> {
    if !c.Allocated(r) then [] else if r == R_MEM then [Astore(c.ra[r])] else [Istore(c.ra[r])]
  }

  /** The optional displacement of an address. */
  function AddOffset(offset: int): seq<Bytecode> {
    if offset != 0 then [PushConst(offset), Iadd] else []
  }

  /** `bc_pushaddress`. */
  function PushAddress(c: Context, r: Register, offset: int): seq<Bytecode> {
    [PushRegister(c, r)] + AddOffset(offset)
  }

  /** `bc_pushindex`: a displacement that is a multiple of four is added after the shift. */
  function PushIndex(c: Context, r: Register, offset: int): seq<Bytecode> {
    if offset % 4 != 0 then [PushRegister(c, r)] + AddOffset(offset) + [PushConst(2), Iushr]
    else [PushRegister(c, r), PushConst(2), Iushr] + AddOffset(offset / 4)
  }

  // ----- rfmt.cc and set.cc -----

  function AluOpcode(op: AluOp): Bytecode
    requires op !in {BitNor, AluOp.Slt, AluOp.Sltu}
  {
    match op
    case Add => Iadd
    case Addu => Iadd
    case Sub => Isub
    case Subu => Isub
    case BitAnd => Iand
    case BitOr => Ior
    case BitXor => Ixor
    case Sllv => Ishl
    case Srlv => Iushr
    case Srav => Ishr
  }

  /** `(compare(x, y) + 1) >> 1`: one when x is greater than y, else zero. */
  const GREATER: seq<Bytecode> := [Lcmp, PushConst(1), Iadd, PushConst(1), Ishr]

  const MASK: Bytecode := Ldc2(0xFFFF_FFFF)

  /** The result of a register instruction, left on the stack. */
  function AluCode(c: Context, op: AluOp, rs: Register, rt: Register): seq<Bytecode> {
    var s, t := PushRegister(c, rs), PushRegister(c, rt);
    match op
    case Addu => if rt != R_ZERO && rs != R_ZERO then [s, t, Iadd] else if rt == R_ZERO then [s] else [t]
    case Subu => if rs == R_ZERO then [t, Ineg] else [s, t, Isub]
    case BitNor =>
      (if rs == R_ZERO && rt == R_ZERO then [PushConst(-1)]
       else (if rs != R_ZERO && rt != R_ZERO then [s, t, Ior] else if rs != R_ZERO then [s] else [t])
            + [PushConst(-1), Ixor])
    case Slt => [t, I2l, s, I2l] + GREATER
    case Sltu => [t, I2l, MASK, Land] + [s, I2l, MASK, Land] + GREATER
    case Sllv => [t, s, Ishl]
    case Srlv => [t, s, Iushr]
    case Srav => [t, s, Ishr]
    case _ => [s, t, AluOpcode(op)]
  }

  function ShiftOpcode(op: ShiftOp): Bytecode {
    match op
    case Sll => Ishl
    case Srl => Iushr
    case Sra => Ishr
  }

  // ----- ifmt.cc and set.cc -----

  function ImmCode(c: Context, op: ImmOp, rs: Register, imm: Immediate): seq<Bytecode> {
    var s := PushRegister(c, rs);
    match op
    case Addi => if rs == R_ZERO then [PushConst(imm)] else [s, PushConst(imm), Iadd]
    case Addiu => if rs == R_ZERO then [PushConst(imm)] else [s, PushConst(imm), Iadd]
    case Andi => [s, PushConst(imm), Iand]
    case Ori => [s, PushConst(imm), Ior]
    case Xori => [s, PushConst(imm), Ixor]
    case Slti => [PushConst(imm), I2l, s, I2l] + GREATER
    case Sltiu => [Ldc2(Wrap(imm)), s, I2l, MASK, Land] + GREATER
  }

  // ----- memory.cc -----

  function LastByte(op: LoadOp): int {
    if op in {Lh, Lhu} then 2 else 3
  }

  /** `(last - (address & last)) << 3`. */
  function BitShift(c: Context, last: int, rs: Register, offset: int): seq<Bytecode> {
    [PushConst(last), PushRegister(c, rs)] + AddOffset(offset) + [PushConst(last), Iand, Isub, PushConst(3), Ishl]
  }

  /** The conversion that ends an inlined partial load. */
  function Convert(op: LoadOp): seq<Bytecode> {
    match op
    case Lw => []
    case Lb => [I2b]
    case Lhu => [I2c]
    case Lh => [I2s]
    case Lbu => [PushConst(0xFF), Iand]
  }

  function ReadKindOf(op: LoadOp): ReadKind
    requires op != Lw
  {
    match op
    case Lb => ReadByte
    case Lbu => ReadByteUnsigned
    case Lh => ReadShort
    case Lhu => ReadShortUnsigned
  }

  function WordCode(c: Context, rs: Register, offset: int): seq<Bytecode> {
    [PushRegister(c, R_MEM)] + PushIndex(c, rs, offset) + [Iaload]
  }

  /** The loaded value, left on the stack. */
  function LoadCode(c: Context, op: LoadOp, rs: Register, offset: int): seq<Bytecode> {
    if op == Lw then WordCode(c, rs, offset)
    else if c.inlines then
      WordCode(c, rs, offset) + BitShift(c, LastByte(op), rs, offset) + [Iushr] + Convert(op)
    else PushAddress(c, rs, offset) + [Invoke(MemoryRead(ReadKindOf(op)))]
  }

  function StoreMask(op: StoreOp): int {
    if op == Sh then 0xFFFF else 0xFF
  }

  /** The inlined sb and sh: read the word, clear the field, or in the new value, write back. */
  function InlineStore(c: Context, op: StoreOp, rs: Register, rt: Register, offset: int): seq<Bytecode> {
    var mask, last := PushConst(StoreMask(op)), if op == Sh then 2 else 3;
    [PushRegister(c, R_MEM)] + PushIndex(c, rs, offset) + [Dup2, Iaload, mask]
    + BitShift(c, last, rs, offset)
    + [DupX2, Ishl, PushConst(-1), Ixor, Iand]
    + [Swap, PushRegister(c, rt), mask, Iand, Swap, Ishl, Ior, Iastore]
  }

  function StoreCode(c: Context, op: StoreOp, rs: Register, rt: Register, offset: int): seq<Bytecode> {
    if op == Sw then [PushRegister(c, R_MEM)] + PushIndex(c, rs, offset) + [PushRegister(c, rt), Iastore]
    else if c.inlines then InlineStore(c, op, rs, rt, offset)
    else PushAddress(c, rs, offset) + [PushRegister(c, rt), Invoke(MemoryWrite(if op == Sb then WriteByte else WriteShort))]
  }

  // ----- muldiv.cc -----

  /** A long on the stack goes to HI and LO. */
  function PopHiLo(c: Context): seq<Bytecode> {
    [Dup2, PushConst(32), Lushr, L2i] + PopRegister(c, R_HI) + [L2i] + PopRegister(c, R_LO)
  }

  /** HI is computed by mult and div only in a method that uses it; `using_lo` starts out true. */
  function MulDivCode(c: Context, op: MulDivOp, rs: Register, rt: Register): seq<Bytecode> {
    var s, t := PushRegister(c, rs), PushRegister(c, rt);
    match op
    case Mult =>
      if !c.usingHi then [s, t, Imul] + PopRegister(c, R_LO) else [s, I2l, t, I2l, Lmul] + PopHiLo(c)
    case Div =>
      if !c.usingHi then [s, t, Idiv] + PopRegister(c, R_LO)
      else [s, t, Dup2, Idiv] + PopRegister(c, R_LO) + [Irem] + PopRegister(c, R_HI)
    case Multu => [s, t, Invoke(CallMultu)] + PopHiLo(c)
    case Divu => [s, t, Invoke(CallDivu)] + PopHiLo(c)
  }

  /** The code of an instruction that is not a branch. */
  function Code(c: Context, insn: Insn): seq<Bytecode>
    requires !insn.IsBranch()
  {
    match insn
    case Nop => []
    case Alu(op, rs, rt, rd) =>
      if op == Addu && rs == 0 && rt == 0 && rd == 0 then [] else AluCode(c, op, rs, rt) + PopRegister(c, rd)
    case Shift(op, rt, rd, amount) =>
      if rt == 0 && amount == 0 && rd == 0 then []
      else [PushRegister(c, rt), PushConst(amount), ShiftOpcode(op)] + PopRegister(c, rd)
    case Imm(op, rs, rt, imm) =>
      if op in {Addi, Addiu} && rs != R_ZERO && rt == rs then [Iinc(c.ra[rt], imm)]
      else ImmCode(c, op, rs, imm) + PopRegister(c, rt)
    case Lui(rt, high) => [PushUnsigned(Wrap(high * 0x1_0000))] + PopRegister(c, rt)
    case Load(op, rs, rt, offset) => if SkipsRa(c, insn) then [] else LoadCode(c, op, rs, offset) + PopRegister(c, rt)
    case Store(op, rs, rt, offset) => if SkipsRa(c, insn) then [] else StoreCode(c, op, rs, rt, offset)
    case MulDiv(op, rs, rt) => MulDivCode(c, op, rs, rt)
    case Mfhi(rd) => [PushRegister(c, R_HI)] + PopRegister(c, rd)
    case Mflo(rd) => [PushRegister(c, R_LO)] + PopRegister(c, rd)
  }

  /** Loads and stores of the return address are dropped, except by the runtime-call variants. */
  predicate SkipsRa(c: Context, insn: Insn) {
    match insn
    case Load(op, _, rt, _) => rt == R_RA && (op == Lw || c.inlines)
    case Store(op, _, rt, _) => rt == R_RA && (op == Sw || c.inlines)
    case _ => false
  }

  // ----- register usage -----

  /** The registers that `fillDestinations` and `fillSources` count for an instruction, zero left out. */
  function Touched(c: Context, insn: Insn): set<Register> {
    (match insn
     case Nop => {}
     case Alu(op, rs, rt, rd) => {rd, rs, rt}
     case Shift(_, rt, rd, _) => {rd, rt}
     case Imm(_, rs, rt, _) => {rt, rs}
     case Lui(rt, _) => {rt}
     case Load(_, rs, rt, _) => {rt, rs, R_MEM}
     case Store(_, rs, rt, _) => {rs, rt, R_MEM}
     case MulDiv(op, rs, rt) => {rs, rt, R_LO} + (if op in {Mult, Div} && !c.usingHi then {} else {R_HI})
     case Mfhi(rd) => {rd, R_HI}
     case Mflo(rd) => {rd, R_LO}
     case Branch(cond, rs, rt, _) => if cond in {Eq, Ne} then {rs, rt} else {rs}
     case Jump(_) => {}
     case Jal(_) => {R_V0, R_V1, R_A0, R_A1, R_A2, R_A3, R_SP}
     case Jalr(rs) => {rs, R_V0, R_V1, R_A0, R_A1, R_A2, R_A3, R_SP}
     case Jr(rs) => {rs}) - {R_ZERO}
  }
}
