/** The emitter object and the pass2 methods that append each instruction's bytecode to its output, together
    with the usage counters that pass1 leaves to the register allocator. */
module Emitter {
  import opened Words
  import opened Mips
  import opened Jvm
  import opened Translation

  /** `Emit`: the output file is a growing sequence of bytecodes. */
  class Emit {
    var output: seq<Bytecode>

    constructor ()
      ensures output == []
    {
      output := [];
    }

    method Insn(b: Bytecode)
      modifies this`output
      ensures output == old(output) + [b]
    {
      output := output + [b];
    }

    method PushConst(v: int)
      modifies this`output
      ensures output == old(output) + [Translation.PushConst(v)]
    {
      if v == -1 {
        Insn(Iconst(0xFFFF_FFFF));
      } else if 0 <= v <= 5 {
        Insn(Iconst(v));
      } else if -128 <= v <= 127 {
        Insn(Bipush(Wrap(v)));
      } else if -32768 <= v <= 32767 {
        Insn(Sipush(Wrap(v)));
      } else {
        Insn(Ldc(Wrap(v)));
      }
    }

    method PushConstUnsigned(v: Word)
      modifies this`output
      ensures output == old(output) + [PushUnsigned(v)]
    {
      if v <= 5 {
        Insn(Iconst(v));
      } else if v <= 127 {
        Insn(Bipush(v));
      } else if v <= 32767 {
        Insn(Sipush(v));
      } else {
        Insn(Ldc(v));
      }
    }

    method PushRegister(c: Context, r: Register)
      modifies this`output
      ensures output == old(output) + [Translation.PushRegister(c, r)]
    {
      if r == R_ZERO || !c.Allocated(r) {
        PushConst(0);
      } else if r == R_MEM {
        Insn(Aload(c.ra[r]));
      } else {
        Insn(Iload(c.ra[r]));
      }
    }

    method PopRegister(c: Context, r: Register)
      modifies this`output
      ensures output == old(output) + Translation.PopRegister(c, r)
    {
      if !c.Allocated(r) {
        // an error comment only
      } else if r == R_MEM {
        Insn(Astore(c.ra[r]));
      } else {
        Insn(Istore(c.ra[r]));
      }
    }

    method PushAddress(c: Context, r: Register, extra: int)
      modifies this`output
      ensures output == old(output) + Translation.PushAddress(c, r, extra)
    {
      PushRegister(c, r);
      AddExtra(extra);
    }

    method AddExtra(extra: int)
      modifies this`output
      ensures output == old(output) + AddOffset(extra)
    {
      if extra != 0 {
        PushConst(extra);
        Insn(Iadd);
      }
    }

    method PushIndex(c: Context, r: Register, extra: int)
      modifies this`output
      ensures output == old(output) + Translation.PushIndex(c, r, extra)
    {
      hide Translation.PushRegister, Translation.PushConst;
      var pushExtraBefore := false;
      PushRegister(c, r);
      if extra != 0 && extra % 4 != 0 {
        AddExtra(extra);
        pushExtraBefore := true;
      }
      PushConst(2);
      Insn(Iushr);
      if !pushExtraBefore && extra != 0 {
        AddExtra(extra / 4);
      }
    }

    /** The comparison trick that ends slt and its variants. */
    method Greater()
      modifies this`output
      ensures output == old(output) + GREATER
    {
      hide Translation.PushConst;
      Insn(Lcmp);
      PushConst(1);
      Insn(Iadd);
      PushConst(1);
      Insn(Ishr);
    }

    /** A register as an unsigned long. */
    method PushMasked(c: Context, r: Register)
      modifies this`output
      ensures output == old(output) + [Translation.PushRegister(c, r), I2l, MASK, Land]
    {
      hide Translation.PushRegister;
      PushRegister(c, r);
      Insn(I2l);
      Insn(Ldc2(0xFFFF_FFFF));
      Insn(Land);
    }

    /** `Rfmt`, `Addu`, `Subu`, `Nor`, the variable shifts and the register comparisons. */
    method Alu(c: Context, op: AluOp, rs: Register, rt: Register)
      modifies this`output
      ensures output == old(output) + AluCode(c, op, rs, rt)
    {
      hide Translation.PushRegister, Translation.PushConst;
      match op
      case Addu =>
        if rt != R_ZERO && rs != R_ZERO {
          Binary(c, rs, rt, Iadd);
        } else if rt == R_ZERO {
          PushRegister(c, rs);
        } else {
          PushRegister(c, rt);
        }
      case Subu =>
        if rs == R_ZERO {
          PushRegister(c, rt);
          Insn(Ineg);
        } else {
          Binary(c, rs, rt, Isub);
        }
      case BitNor =>
        if rs != R_ZERO || rt != R_ZERO {
          if rs != R_ZERO && rt != R_ZERO {
            Binary(c, rs, rt, Ior);
          } else if rs != R_ZERO {
            PushRegister(c, rs);
          } else {
            PushRegister(c, rt);
          }
          PushConst(-1);
          Insn(Ixor);
        } else {
          PushConst(-1);
        }
      case Slt =>
        PushRegister(c, rt);
        Insn(I2l);
        PushRegister(c, rs);
        Insn(I2l);
        Greater();
      case Sltu =>
        PushMasked(c, rt);
        PushMasked(c, rs);
        Greater();
      case Sllv => Binary(c, rt, rs, Ishl);
      case Srlv => Binary(c, rt, rs, Iushr);
      case Srav => Binary(c, rt, rs, Ishr);
      case Add => Binary(c, rs, rt, Iadd);
      case Sub => Binary(c, rs, rt, Isub);
      case BitAnd => Binary(c, rs, rt, Iand);
      case BitOr => Binary(c, rs, rt, Ior);
      case BitXor => Binary(c, rs, rt, Ixor);
    }

    method Binary(c: Context, first: Register, second: Register, b: Bytecode)
      modifies this`output
      ensures output == old(output) + [Translation.PushRegister(c, first), Translation.PushRegister(c, second), b]
    {
      hide Translation.PushRegister;
      PushRegister(c, first);
      PushRegister(c, second);
      Insn(b);
    }

    /** `Ifmt` and the immediate comparisons. */
    method Immediate(c: Context, op: ImmOp, rs: Register, imm: Mips.Immediate)
      modifies this`output
      ensures output == old(output) + ImmCode(c, op, rs, imm)
    {
      hide Translation.PushRegister, Translation.PushConst;
      match op
      case Addi => AddImmediate(c, rs, imm);
      case Addiu => AddImmediate(c, rs, imm);
      case Andi => RegisterConst(c, rs, imm, Iand);
      case Ori => RegisterConst(c, rs, imm, Ior);
      case Xori => RegisterConst(c, rs, imm, Ixor);
      case Slti =>
        PushConst(imm);
        Insn(I2l);
        PushRegister(c, rs);
        Insn(I2l);
        Greater();
      case Sltiu =>
        Insn(Ldc2(Wrap(imm)));
        PushMasked(c, rs);
        Greater();
    }

    method AddImmediate(c: Context, rs: Register, imm: Mips.Immediate)
      modifies this`output
      ensures output == old(output) + ImmCode(c, Addiu, rs, imm)
    {
      hide Translation.PushRegister, Translation.PushConst;
      if rs == R_ZERO {
        PushConst(imm);
      } else {
        RegisterConst(c, rs, imm, Iadd);
      }
    }

    method RegisterConst(c: Context, r: Register, k: int, b: Bytecode)
      modifies this`output
      ensures output == old(output) + [Translation.PushRegister(c, r), Translation.PushConst(k), b]
    {
      hide Translation.PushRegister, Translation.PushConst;
      PushRegister(c, r);
      PushConst(k);
      Insn(b);
    }

    /** `b = (last - (address & last)) << 3`. */
    method ShiftAmount(c: Context, last: int, rs: Register, extra: int)
      modifies this`output
      ensures output == old(output) + BitShift(c, last, rs, extra)
    {
      hide Translation.PushRegister, Translation.PushConst, AddOffset;
      PushConst(last);
      PushRegister(c, rs);
      AddExtra(extra);
      PushConst(last);
      Insn(Iand);
      Insn(Isub);
      PushConst(3);
      Insn(Ishl);
    }

    method LoadWord(c: Context, rs: Register, extra: int)
      modifies this`output
      ensures output == old(output) + WordCode(c, rs, extra)
    {
      hide Translation.PushRegister, Translation.PushIndex;
      PushRegister(c, R_MEM);
      PushIndex(c, rs, extra);
      Insn(Iaload);
    }

    /** `Lw` and `PartialLoad`. */
    method Load(c: Context, op: LoadOp, rs: Register, extra: int)
      modifies this`output
      ensures output == old(output) + LoadCode(c, op, rs, extra)
    {
      hide Translation.PushConst, WordCode, BitShift, Translation.PushAddress;
      if op == Lw {
        LoadWord(c, rs, extra);
      } else if !c.inlines {
        PushAddress(c, rs, extra);
        Insn(Invoke(MemoryRead(ReadKindOf(op))));
      } else {
        LoadWord(c, rs, extra);
        ShiftAmount(c, LastByte(op), rs, extra);
        Insn(Iushr);
        match op
        case Lb => Insn(I2b);
        case Lhu => Insn(I2c);
        case Lh => Insn(I2s);
        case Lbu =>
          PushConst(0xFF);
          Insn(Iand);
      }
    }

    /** `Sw` and `PartialStore`. */
    method Store(c: Context, op: StoreOp, rs: Register, rt: Register, extra: int)
      modifies this`output
      ensures output == old(output) + StoreCode(c, op, rs, rt, extra)
    {
      hide Translation.PushRegister, Translation.PushIndex, Translation.PushAddress, InlineStore;
      if op == Sw {
        PushRegister(c, R_MEM);
        PushIndex(c, rs, extra);
        PushRegister(c, rt);
        Insn(Iastore);
      } else if !c.inlines {
        PushAddress(c, rs, extra);
        PushRegister(c, rt);
        Insn(Invoke(MemoryWrite(if op == Sb then WriteByte else WriteShort)));
      } else {
        StoreInline(c, op, rs, rt, extra);
      }
    }

    method StoreInline(c: Context, op: StoreOp, rs: Register, rt: Register, extra: int)
      modifies this`output
      ensures output == old(output) + InlineStore(c, op, rs, rt, extra)
    {
      hide Translation.PushRegister, Translation.PushConst, Translation.PushIndex, BitShift, StoreMask;
      ghost var start := output;
      var mask, last := StoreMask(op), if op == Sh then 2 else 3;
      PushRegister(c, R_MEM);
      PushIndex(c, rs, extra);
      Insn(Dup2);
      Insn(Iaload);
      PushConst(mask);
      ShiftAmount(c, last, rs, extra);
      ghost var first := [Translation.PushRegister(c, R_MEM)] + Translation.PushIndex(c, rs, extra)
                         + [Dup2, Iaload, Translation.PushConst(mask)] + BitShift(c, last, rs, extra);
      assert output == start + first;
      ClearField();
      MergeField(c, rt, mask);
    }

    /** `cur &= ~(mask << b)`, with the shift kept below. */
    method ClearField()
      modifies this`output
      ensures output == old(output) + [DupX2, Ishl, Translation.PushConst(-1), Ixor, Iand]
    {
      hide Translation.PushConst;
      Insn(DupX2);
      Insn(Ishl);
      PushConst(-1);
      Insn(Ixor);
      Insn(Iand);
    }

    /** `cur |= (rt & mask) << b`, and the store. */
    method MergeField(c: Context, rt: Register, mask: int)
      modifies this`output
      ensures output == old(output) + [Swap, Translation.PushRegister(c, rt), Translation.PushConst(mask), Iand, Swap, Ishl, Ior, Iastore]
    {
      hide Translation.PushRegister, Translation.PushConst;
      Insn(Swap);
      PushRegister(c, rt);
      PushConst(mask);
      Insn(Iand);
      Insn(Swap);
      Insn(Ishl);
      Insn(Ior);
      Insn(Iastore);
    }

    method PopHiLo(c: Context)
      modifies this`output
      ensures output == old(output) + Translation.PopHiLo(c)
    {
      hide Translation.PushConst, Translation.PopRegister;
      Insn(Dup2);
      PushConst(32);
      Insn(Lushr);
      Insn(L2i);
      PopRegister(c, R_HI);
      Insn(L2i);
      PopRegister(c, R_LO);
    }

    method LongProduct(c: Context, rs: Register, rt: Register)
      modifies this`output
      ensures output == old(output) + [Translation.PushRegister(c, rs), I2l, Translation.PushRegister(c, rt), I2l, Lmul]
    {
      hide Translation.PushRegister;
      PushRegister(c, rs);
      Insn(I2l);
      PushRegister(c, rt);
      Insn(I2l);
      Insn(Lmul);
    }

    method Quotient(c: Context, rs: Register, rt: Register)
      modifies this`output
      ensures output == old(output) + [Translation.PushRegister(c, rs), Translation.PushRegister(c, rt), Dup2, Idiv]
    {
      hide Translation.PushRegister;
      PushRegister(c, rs);
      PushRegister(c, rt);
      Insn(Dup2);
      Insn(Idiv);
    }

    /** `Mult`, `Div` and `MulDiv`. */
    method MulDiv(c: Context, op: MulDivOp, rs: Register, rt: Register)
      modifies this`output
      ensures output == old(output) + MulDivCode(c, op, rs, rt)
    {
      hide Translation.PushRegister, Translation.PopRegister, Translation.PopHiLo;
      match op
      case Mult =>
        if !c.usingHi {
          Binary(c, rs, rt, Imul);
          PopRegister(c, R_LO);
        } else {
          LongProduct(c, rs, rt);
          PopHiLo(c);
        }
      case Div =>
        if !c.usingHi {
          Binary(c, rs, rt, Idiv);
          PopRegister(c, R_LO);
        } else {
          Quotient(c, rs, rt);
          PopRegister(c, R_LO);
          Insn(Irem);
          PopRegister(c, R_HI);
        }
      case Multu =>
        Binary(c, rs, rt, Invoke(CallMultu));
        PopHiLo(c);
      case Divu =>
        Binary(c, rs, rt, Invoke(CallDivu));
        PopHiLo(c);
    }

    /** `pass2` of an instruction that is not a branch. */
    method Pass2(c: Context, insn: Mips.Insn)
      requires !insn.IsBranch()
      modifies this`output
      ensures output == old(output) + Code(c, insn)
    {
      hide AluCode, ImmCode, LoadCode, StoreCode, MulDivCode, Translation.PushRegister, Translation.PopRegister,
           Translation.PushConst, PushUnsigned;
      match insn
      case Nop =>
      case Alu(_, _, _, _) => Register(c, insn);
      case Shift(_, _, _, _) => Register(c, insn);
      case Imm(op, rs, rt, imm) =>
        if op in {Addi, Addiu} && rs != R_ZERO && rt == rs {
          Insn(Iinc(c.ra[rt], imm));
        } else {
          Immediate(c, op, rs, imm);
          PopRegister(c, rt);
        }
      case Lui(rt, high) =>
        PushConstUnsigned(Wrap(high * 0x1_0000));
        PopRegister(c, rt);
      case Load(_, _, _, _) => Memory(c, insn);
      case Store(_, _, _, _) => Memory(c, insn);
      case MulDiv(op, rs, rt) => MulDiv(c, op, rs, rt);
      case Mfhi(rd) =>
        PushRegister(c, R_HI);
        PopRegister(c, rd);
      case Mflo(rd) =>
        PushRegister(c, R_LO);
        PopRegister(c, rd);
    }

    /** The three-register operations and the shifts by a constant; the two encodings of a nop give nothing. */
    method Register(c: Context, insn: Mips.Insn)
      requires insn.Alu? || insn.Shift?
      modifies this`output
      ensures output == old(output) + Code(c, insn)
    {
      hide AluCode, Translation.PushRegister, Translation.PopRegister, Translation.PushConst;
      match insn
      case Alu(op, rs, rt, rd) =>
        if !(op == Addu && rt == 0 && rs == 0 && rd == 0) {
          Alu(c, op, rs, rt);
          PopRegister(c, rd);
        }
      case Shift(op, rt, rd, amount) =>
        if !(rt == 0 && amount == 0 && rd == 0) {
          RegisterConst(c, rt, amount, ShiftOpcode(op));
          PopRegister(c, rd);
        }
    }

    /** Loads and stores; those that save or restore `$ra` give nothing. */
    method Memory(c: Context, insn: Mips.Insn)
      requires insn.Load? || insn.Store?
      modifies this`output
      ensures output == old(output) + Code(c, insn)
    {
      hide LoadCode, StoreCode, Translation.PopRegister;
      if SkipsRa(c, insn) {
        return;
      }
      match insn
      case Load(op, rs, rt, offset) =>
        Load(c, op, rs, offset);
        PopRegister(c, rt);
      case Store(op, rs, rt, offset) =>
        Store(c, op, rs, rt, offset);
    }
  }

  // ----- usage counters -----

  /** `addToRegisterUsage`: register zero is never counted. */
  method AddToRegisterUsage(reg: Register, p: array<int>)
    requires p.Length == N_REGS
    modifies p
    ensures p[..] == CountedOne(old(p[..]), reg)
  {
    if reg != 0 {
      p[reg] := p[reg] + 1;
    }
  }

  function CountedOne(p: seq<int>, reg: Register): (r: seq<int>)
    requires |p| == N_REGS
  {
    if reg == R_ZERO then p else p[reg := p[reg] + 1]
  }

  /** The counters after some registers have been counted. */
  function Counted(p: seq<int>, regs: seq<Register>): (r: seq<int>)
    requires |p| == N_REGS
    ensures |r| == N_REGS
    ensures forall k: Register :: r[k] >= p[k] && (r[k] > p[k] <==> k in regs && k != R_ZERO)
    decreases |regs|
  {
    if regs == [] then p else CountedOne(Counted(p, regs[..|regs| - 1]), regs[|regs| - 1])
  }

  /** `fillDestinations`. */
  function Destinations(c: Context, insn: Insn): seq<Register> {
    match insn
    case Alu(_, _, _, rd) => [rd]
    case Shift(_, _, rd, _) => [rd]
    case Imm(_, _, rt, _) => [rt]
    case Lui(rt, _) => [rt]
    case Load(_, _, rt, _) => [rt]
    case MulDiv(op, _, _) => if op in {Mult, Div} && !c.usingHi then [R_LO] else [R_LO, R_HI]
    case Mfhi(rd) => [rd]
    case Mflo(rd) => [rd]
    case Jal(_) => [R_V0, R_V1]
    case Jalr(_) => [R_V0, R_V1]
    case _ => []
  }

  /** `fillSources`. */
  function Sources(insn: Insn): seq<Register> {
    match insn
    case Alu(_, rs, rt, _) => [rs, rt]
    case Shift(_, rt, _, _) => [rt]
    case Imm(_, rs, _, _) => [rs]
    case Load(_, rs, _, _) => [rs, R_MEM]
    case Store(_, rs, rt, _) => [rs, rt, R_MEM]
    case MulDiv(_, rs, rt) => [rs, rt]
    case Mfhi(_) => [R_HI]
    case Mflo(_) => [R_LO]
    case Branch(cond, rs, rt, _) => if cond in {Eq, Ne} && rt != R_ZERO then [rs, rt] else [rs]
    case Jal(_) => [R_ZERO, R_A0, R_A1, R_A2, R_A3, R_SP]
    case Jalr(rs) => [rs, R_A0, R_A1, R_A2, R_A3, R_SP]
    case Jr(rs) => [rs]
    case _ => []
  }

  /** What the two count is what the instruction's code pushes and pops. */
  lemma CountsTouched(c: Context, insn: Insn, r: Register)
    ensures r in Touched(c, insn) <==> (r in Destinations(c, insn) || r in Sources(insn)) && r != R_ZERO
  {}

  method CountAll(regs: seq<Register>, p: array<int>)
    requires p.Length == N_REGS
    modifies p
    ensures p[..] == Counted(old(p[..]), regs)
  {
    for i := 0 to |regs|
      invariant p[..] == Counted(old(p[..]), regs[..i])
    {
      hide CountedOne;
      AddToRegisterUsage(regs[i], p);
      assert regs[..i + 1][..i] == regs[..i];
    }
    assert regs[..|regs|] == regs;
  }

  /** One instruction's `fillDestinations` and `fillSources` raise exactly the counters it needs. */
  method FillUsage(c: Context, insn: Insn, p: array<int>)
    requires p.Length == N_REGS
    modifies p
    ensures forall r: Register :: p[r] >= old(p[r]) && (p[r] > old(p[r]) <==> r in Touched(c, insn))
  {
    forall r: Register
      ensures r in Touched(c, insn) <==> (r in Destinations(c, insn) || r in Sources(insn)) && r != R_ZERO
    {
      CountsTouched(c, insn, r);
    }
    hide Touched, Destinations, Sources;
    ghost var before := p[..];
    CountAll(Destinations(c, insn), p);
    ghost var middle := p[..];
    CountAll(Sources(insn), p);
    assert forall r: Register :: before[r] <= middle[r] <= p[..][r];
  }
}
