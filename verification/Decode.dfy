/** tools/translator/instruction.cc: instruction words become instructions.  The reference is the encoding of
    the MIPS I integer instructions. */
module Decode {
  import opened Words
  import opened Options
  import opened Mips

  // ----- fields -----

  function Opcode(w: Word): nat { w / 0x400_0000 }
  function Rs(w: Word): Field { w / 0x20_0000 % 32 }
  function Rt(w: Word): Field { w / 0x1_0000 % 32 }
  function Rd(w: Word): Field { w / 0x800 % 32 }
  function Amount(w: Word): nat { w / 64 % 32 }
  function Funct(w: Word): nat { w % 64 }
  function Low16(w: Word): nat { w % 0x1_0000 }

  /** `extra` of an I-format instruction: extended by zeros for andi, ori and xori, by the sign otherwise. */
  function SignExtended(low: nat): Mips.Immediate
    requires low < 0x1_0000
  {
    if low >= 0x8000 then low - 0x1_0000 else low
  }

  // ----- InstructionFactory::create -----

  /** `mips_special_table`. */
  function Special(w: Word): Option<Insn> {
    var rs, rt, rd := Rs(w), Rt(w), Rd(w);
    match Funct(w)
    case 0x00 => Some(Shift(Sll, rt, rd, Amount(w)))
    case 0x02 => Some(Shift(Srl, rt, rd, Amount(w)))
    case 0x03 => Some(Shift(Sra, rt, rd, Amount(w)))
    case 0x04 => Some(Alu(Sllv, rs, rt, rd))
    case 0x06 => Some(Alu(Srlv, rs, rt, rd))
    case 0x07 => Some(Alu(Srav, rs, rt, rd))
    case 0x08 => Some(Jr(rs))
    case 0x09 => Some(Jalr(rs))
    case 0x0D => Some(Nop)
    case 0x10 => Some(Mfhi(rd))
    case 0x12 => Some(Mflo(rd))
    case 0x18 => Some(MulDiv(Mult, rs, rt))
    case 0x19 => Some(MulDiv(MulDivOp.Multu, rs, rt))
    case 0x1A => Some(MulDiv(Div, rs, rt))
    case 0x1B => Some(MulDiv(MulDivOp.Divu, rs, rt))
    case 0x20 => Some(Alu(Add, rs, rt, rd))
    case 0x21 => Some(Alu(Addu, rs, rt, rd))
    case 0x22 => Some(Alu(Sub, rs, rt, rd))
    case 0x23 => Some(Alu(Subu, rs, rt, rd))
    case 0x24 => Some(Alu(BitAnd, rs, rt, rd))
    case 0x25 => Some(Alu(BitOr, rs, rt, rd))
    case 0x26 => Some(Alu(BitXor, rs, rt, rd))
    case 0x27 => Some(Alu(BitNor, rs, rt, rd))
    case 0x2A => Some(Alu(AluOp.Slt, rs, rt, rd))
    case 0x2B => Some(Alu(AluOp.Sltu, rs, rt, rd))
    case _ => None
  }

  /** `mips_op_entries`, for the instructions of the reference machine. */
  function DecodeWord(w: Word): Option<Insn> {
    var rs, rt, extra := Rs(w), Rt(w), SignExtended(Low16(w));
    match Opcode(w)
    case 0x00 => Special(w)
    case 0x01 => if rt == 0 then Some(Branch(Ltz, rs, 0, extra)) else if rt == 1 then Some(Branch(Gez, rs, 0, extra)) else None
    case 0x02 => Some(Jump(w % 0x400_0000 * 4))
    case 0x03 => Some(Jal(w % 0x400_0000 * 4))
    case 0x04 => Some(Branch(Eq, rs, rt, extra))
    case 0x05 => Some(Branch(Ne, rs, rt, extra))
    case 0x06 => Some(Branch(Lez, rs, 0, extra))
    case 0x07 => Some(Branch(Gtz, rs, 0, extra))
    case 0x08 => Some(Imm(Addi, rs, rt, extra))
    case 0x09 => Some(Imm(Addiu, rs, rt, extra))
    case 0x0A => Some(Imm(Slti, rs, rt, extra))
    case 0x0B => Some(Imm(Sltiu, rs, rt, extra))
    case 0x0C => Some(Imm(Andi, rs, rt, Low16(w)))
    case 0x0D => Some(Imm(Ori, rs, rt, Low16(w)))
    case 0x0E => Some(Imm(Xori, rs, rt, Low16(w)))
    case 0x0F => Some(Lui(rt, Low16(w)))
    case 0x20 => Some(Load(Lb, rs, rt, extra))
    case 0x21 => Some(Load(Lh, rs, rt, extra))
    case 0x23 => Some(Load(Lw, rs, rt, extra))
    case 0x24 => Some(Load(Lbu, rs, rt, extra))
    case 0x25 => Some(Load(Lhu, rs, rt, extra))
    case 0x28 => Some(Store(Sb, rs, rt, extra))
    case 0x29 => Some(Store(Sh, rs, rt, extra))
    case 0x2B => Some(Store(Sw, rs, rt, extra))
    case _ => None
  }

  // ----- the architecture's encoding -----

  function RFormat(rs: nat, rt: nat, rd: nat, amount: nat, funct: nat): Word
    requires rs < 32 && rt < 32 && rd < 32 && amount < 32 && funct < 64
  {
    rs * 0x20_0000 + rt * 0x1_0000 + rd * 0x800 + amount * 64 + funct
  }

  function IFormat(op: nat, rs: nat, rt: nat, imm: Mips.Immediate): Word
    requires op < 64 && rs < 32 && rt < 32
  {
    op * 0x400_0000 + rs * 0x20_0000 + rt * 0x1_0000 + imm % 0x1_0000
  }

  function AluFunct(op: AluOp): nat {
    match op
    case Add => 0x20
    case Addu => 0x21
    case Sub => 0x22
    case Subu => 0x23
    case BitAnd => 0x24
    case BitOr => 0x25
    case BitXor => 0x26
    case BitNor => 0x27
    case Slt => 0x2A
    case Sltu => 0x2B
    case Sllv => 0x04
    case Srlv => 0x06
    case Srav => 0x07
  }

  function ShiftFunct(op: ShiftOp): nat {
    match op
    case Sll => 0x00
    case Srl => 0x02
    case Sra => 0x03
  }

  function ImmOpcode(op: ImmOp): nat {
    match op
    case Addi => 0x08
    case Addiu => 0x09
    case Slti => 0x0A
    case Sltiu => 0x0B
    case Andi => 0x0C
    case Ori => 0x0D
    case Xori => 0x0E
  }

  function LoadOpcode(op: LoadOp): nat {
    match op
    case Lb => 0x20
    case Lh => 0x21
    case Lw => 0x23
    case Lbu => 0x24
    case Lhu => 0x25
  }

  function StoreOpcode(op: StoreOp): nat {
    match op
    case Sb => 0x28
    case Sh => 0x29
    case Sw => 0x2B
  }

  function MulDivFunct(op: MulDivOp): nat {
    match op
    case Mult => 0x18
    case Multu => 0x19
    case Div => 0x1A
    case Divu => 0x1B
  }

  function BranchWord(cond: Condition, rs: Field, rt: Field, offset: Mips.Immediate): Word {
    match cond
    case Eq => IFormat(0x04, rs, rt, offset)
    case Ne => IFormat(0x05, rs, rt, offset)
    case Lez => IFormat(0x06, rs, 0, offset)
    case Gtz => IFormat(0x07, rs, 0, offset)
    case Ltz => IFormat(0x01, rs, 0, offset)
    case Gez => IFormat(0x01, rs, 1, offset)
  }

  /** The instructions that have an encoding of their own: in-range fields, no register where none is encoded,
      jump targets in the first 256 megabytes. */
  predicate HasEncoding(insn: Insn) {
    Encodable(insn) &&
    match insn
    case Nop => false
    case Branch(cond, _, rt, _) => cond in {Eq, Ne} || rt == 0
    case Jump(t) => t % 4 == 0 && t < 0x1000_0000
    case Jal(t) => t % 4 == 0 && t < 0x1000_0000
    case _ => true
  }

  function Encode(insn: Insn): Word
    requires HasEncoding(insn)
  {
    match insn
    case Alu(op, rs, rt, rd) => RFormat(rs, rt, rd, 0, AluFunct(op))
    case Shift(op, rt, rd, amount) => RFormat(0, rt, rd, amount, ShiftFunct(op))
    case Imm(op, rs, rt, imm) => IFormat(ImmOpcode(op), rs, rt, imm)
    case Lui(rt, high) => IFormat(0x0F, 0, rt, high)
    case Load(op, rs, rt, offset) => IFormat(LoadOpcode(op), rs, rt, offset)
    case Store(op, rs, rt, offset) => IFormat(StoreOpcode(op), rs, rt, offset)
    case MulDiv(op, rs, rt) => RFormat(rs, rt, 0, 0, MulDivFunct(op))
    case Mfhi(rd) => RFormat(0, 0, rd, 0, 0x10)
    case Mflo(rd) => RFormat(0, 0, rd, 0, 0x12)
    case Branch(cond, rs, rt, offset) => BranchWord(cond, rs, rt, offset)
    case Jump(t) => 0x02 * 0x400_0000 + t / 4
    case Jal(t) => 0x03 * 0x400_0000 + t / 4
    case Jalr(rs) => RFormat(rs, 0, 31, 0, 0x09)
    case Jr(rs) => RFormat(rs, 0, 0, 0, 0x08)
  }

  // ----- the round trip -----

  lemma RFields(rs: nat, rt: nat, rd: nat, amount: nat, funct: nat)
    requires rs < 32 && rt < 32 && rd < 32 && amount < 32 && funct < 64
    ensures var w := RFormat(rs, rt, rd, amount, funct);
            Opcode(w) == 0 && Rs(w) == rs && Rt(w) == rt && Rd(w) == rd && Amount(w) == amount && Funct(w) == funct
  {
    var w := RFormat(rs, rt, rd, amount, funct);
    assert w / 64 == rs * 0x8000 + rt * 0x400 + rd * 32 + amount;
    assert w / 0x800 == rs * 0x400 + rt * 32 + rd;
    assert w / 0x1_0000 == rs * 32 + rt;
    assert w / 0x20_0000 == rs;
  }

  lemma IFields(op: nat, rs: nat, rt: nat, imm: Mips.Immediate)
    requires op < 64 && rs < 32 && rt < 32
    ensures var w := IFormat(op, rs, rt, imm);
            Opcode(w) == op && Rs(w) == rs && Rt(w) == rt && Low16(w) == imm % 0x1_0000 &&
            (imm < 0x8000 ==> SignExtended(Low16(w)) == imm) && (0 <= imm ==> Low16(w) == imm)
  {
    var w := IFormat(op, rs, rt, imm);
    assert w / 0x1_0000 == op * 0x400 + rs * 32 + rt;
    assert w / 0x20_0000 == op * 32 + rs;
    assert w / 0x400_0000 == op;
  }

  lemma JFields(op: nat, t: nat)
    requires op < 64 && t < 0x400_0000
    ensures var w: Word := op * 0x400_0000 + t;
            Opcode(w) == op && w % 0x400_0000 == t
  {}

  /** Decoding undoes the architecture's encoding, for every instruction of the reference machine. */
  lemma DecodesEncoded(insn: Insn)
    requires HasEncoding(insn)
    ensures DecodeWord(Encode(insn)) == Some(insn)
  {
    hide RFormat, IFormat, Opcode, Rs, Rt, Rd, Amount, Funct, Low16, SignExtended;
    match insn
    case Alu(op, rs, rt, rd) => RFields(rs, rt, rd, 0, AluFunct(op));
    case Shift(op, rt, rd, amount) => RFields(0, rt, rd, amount, ShiftFunct(op));
    case Imm(op, rs, rt, imm) => IFields(ImmOpcode(op), rs, rt, imm);
    case Lui(rt, high) => IFields(0x0F, 0, rt, high);
    case Load(op, rs, rt, offset) => IFields(LoadOpcode(op), rs, rt, offset);
    case Store(op, rs, rt, offset) => IFields(StoreOpcode(op), rs, rt, offset);
    case MulDiv(op, rs, rt) => RFields(rs, rt, 0, 0, MulDivFunct(op));
    case Mfhi(rd) => RFields(0, 0, rd, 0, 0x10);
    case Mflo(rd) => RFields(0, 0, rd, 0, 0x12);
    case Branch(cond, rs, rt, offset) => BranchDecodes(cond, rs, rt, offset);
    case Jump(t) => JFields(0x02, t / 4);
    case Jal(t) => JFields(0x03, t / 4);
    case Jalr(rs) => RFields(rs, 0, 31, 0, 0x09);
    case Jr(rs) => RFields(rs, 0, 0, 0, 0x08);
  }

  lemma BranchDecodes(cond: Condition, rs: Field, rt: Field, offset: Mips.Immediate)
    requires offset < 0x8000 && (cond in {Eq, Ne} || rt == 0)
    ensures DecodeWord(BranchWord(cond, rs, rt, offset)) == Some(Branch(cond, rs, rt, offset))
  {
    hide RFormat, IFormat, Opcode, Rs, Rt, Rd, Amount, Funct, Low16, SignExtended, Special;
    match cond
    case Eq => IFields(0x04, rs, rt, offset);
    case Ne => IFields(0x05, rs, rt, offset);
    case Lez => IFields(0x06, rs, 0, offset);
    case Gtz => IFields(0x07, rs, 0, offset);
    case Ltz => IFields(0x01, rs, 0, offset);
    case Gez => IFields(0x01, rs, 1, offset);
  }

  /** Whatever is decoded is within the ranges that the translation theorem asks for. */
  lemma DecodedIsEncodable(w: Word)
    ensures DecodeWord(w).Some? ==> Encodable(DecodeWord(w).value)
  {
    hide Opcode, Rs, Rt, Rd, Funct;
  }

  // ----- words of known instructions -----

  /** Register arithmetic: the words of `add $v0,$a0,$a1` and the like. */
  lemma RegisterWords()
    ensures DecodeWord(0x0085_1020) == Some(Alu(Add, 4, 5, 2))
    ensures DecodeWord(0x0085_1021) == Some(Alu(Addu, 4, 5, 2))
    ensures DecodeWord(0x0085_1022) == Some(Alu(Sub, 4, 5, 2))
    ensures DecodeWord(0x0085_1023) == Some(Alu(Subu, 4, 5, 2))
    ensures DecodeWord(0x0085_1024) == Some(Alu(BitAnd, 4, 5, 2))
    ensures DecodeWord(0x0085_1025) == Some(Alu(BitOr, 4, 5, 2))
    ensures DecodeWord(0x0085_1026) == Some(Alu(BitXor, 4, 5, 2))
    ensures DecodeWord(0x0085_1027) == Some(Alu(BitNor, 4, 5, 2))
    ensures DecodeWord(0x0085_102A) == Some(Alu(AluOp.Slt, 4, 5, 2))
    ensures DecodeWord(0x0085_102B) == Some(Alu(AluOp.Sltu, 4, 5, 2))
    ensures DecodeWord(0x0085_1004) == Some(Alu(Sllv, 4, 5, 2))
    ensures DecodeWord(0x0085_1006) == Some(Alu(Srlv, 4, 5, 2))
    ensures DecodeWord(0x0085_1007) == Some(Alu(Srav, 4, 5, 2))
  {}

  /** Shifts by 8 bits, multiplications, moves from HI and LO, `jr $ra`, `jalr $t9`, and jumps to 0x400100. */
  lemma SpecialWords()
    ensures DecodeWord(0x0005_1200) == Some(Shift(Sll, 5, 2, 8))
    ensures DecodeWord(0x0005_1202) == Some(Shift(Srl, 5, 2, 8))
    ensures DecodeWord(0x0005_1203) == Some(Shift(Sra, 5, 2, 8))
    ensures DecodeWord(0x0085_0018) == Some(MulDiv(Mult, 4, 5))
    ensures DecodeWord(0x0085_0019) == Some(MulDiv(MulDivOp.Multu, 4, 5))
    ensures DecodeWord(0x0085_001A) == Some(MulDiv(Div, 4, 5))
    ensures DecodeWord(0x0085_001B) == Some(MulDiv(MulDivOp.Divu, 4, 5))
    ensures DecodeWord(0x0000_1010) == Some(Mfhi(2))
    ensures DecodeWord(0x0000_1012) == Some(Mflo(2))
    ensures DecodeWord(0x03E0_0008) == Some(Jr(31))
    ensures DecodeWord(0x0320_F809) == Some(Jalr(25))
    ensures DecodeWord(0x0810_0040) == Some(Jump(0x40_0100))
    ensures DecodeWord(0x0C10_0040) == Some(Jal(0x40_0100))
  {}

  /** Immediates of -24 and 0xFFE8, and `lui`. */
  lemma ImmediateWords()
    ensures DecodeWord(0x23A4_FFE8) == Some(Imm(Addi, 29, 4, -24))
    ensures DecodeWord(0x27A4_FFE8) == Some(Imm(Addiu, 29, 4, -24))
    ensures DecodeWord(0x2BA4_FFE8) == Some(Imm(Slti, 29, 4, -24))
    ensures DecodeWord(0x2FA4_FFE8) == Some(Imm(Sltiu, 29, 4, -24))
    ensures DecodeWord(0x3082_FFE8) == Some(Imm(Andi, 4, 2, 0xFFE8))
    ensures DecodeWord(0x3482_FFE8) == Some(Imm(Ori, 4, 2, 0xFFE8))
    ensures DecodeWord(0x3882_FFE8) == Some(Imm(Xori, 4, 2, 0xFFE8))
    ensures DecodeWord(0x3C02_8000) == Some(Lui(2, 0x8000))
  {}

  /** Loads from 20($sp). */
  lemma LoadWords()
    ensures DecodeWord(0x83A4_0014) == Some(Load(Lb, 29, 4, 20))
    ensures DecodeWord(0x87A4_0014) == Some(Load(Lh, 29, 4, 20))
    ensures DecodeWord(0x8FA4_0014) == Some(Load(Lw, 29, 4, 20))
    ensures DecodeWord(0x93A4_0014) == Some(Load(Lbu, 29, 4, 20))
    ensures DecodeWord(0x97A4_0014) == Some(Load(Lhu, 29, 4, 20))
  {}

  /** Stores of $ra to -4($sp), and branches three words back. */
  lemma StoreAndBranchWords()
    ensures DecodeWord(0xA3BF_FFFC) == Some(Store(Sb, 29, 31, -4))
    ensures DecodeWord(0xA7BF_FFFC) == Some(Store(Sh, 29, 31, -4))
    ensures DecodeWord(0xAFBF_FFFC) == Some(Store(Sw, 29, 31, -4))
    ensures DecodeWord(0x1085_FFFD) == Some(Branch(Eq, 4, 5, -3))
    ensures DecodeWord(0x1485_FFFD) == Some(Branch(Ne, 4, 5, -3))
    ensures DecodeWord(0x1880_FFFD) == Some(Branch(Lez, 4, 0, -3))
    ensures DecodeWord(0x1C80_FFFD) == Some(Branch(Gtz, 4, 0, -3))
    ensures DecodeWord(0x0480_FFFD) == Some(Branch(Ltz, 4, 0, -3))
    ensures DecodeWord(0x0481_FFFD) == Some(Branch(Gez, 4, 0, -3))
  {}
}
