/** Straight-line correctness: on related states the emitted code of every supported instruction does what
    the MIPS instruction does and leaves the operand stack as it found it. */
module StraightLine {
  import opened Words
  import opened Options
  import opened BigEndian
  import opened Mips
  import J = Jvm
  import opened Translation
  import CRunTime

  // ----- the relation between the two machines -----

  /** Distinct registers have distinct locals, and register zero has none. */
  ghost predicate ValidContext(c: Context) {
    !c.Allocated(R_ZERO) &&
    forall r: Register, s: Register :: c.Allocated(r) && c.Allocated(s) && c.ra[r] == c.ra[s] ==> r == s
  }

  /** The registers whose values the locals carry: `$ra` never (the Java stack returns), HI only in a method
      that reads it. */
  predicate Visible(c: Context, r: Register) {
    1 <= r < 34 && r != R_RA && c.Allocated(r) && (r == R_HI ==> c.usingHi)
  }

  ghost predicate LocalsHold(c: Context, regs: RegisterFile, locals: seq<J.Value>) {
    (forall r: Register :: c.Allocated(r) ==> c.ra[r] < |locals|) &&
    (forall r: Register :: Visible(c, r) ==> locals[c.ra[r]] == J.Int(regs[r])) &&
    (c.Allocated(R_MEM) ==> locals[c.ra[R_MEM]] == J.MemoryRef)
  }

  /** `saved` are the words in which only the MIPS machine has stored a return address. */
  ghost predicate Related(c: Context, saved: set<nat>, m: State, j: J.State) {
    LocalsHold(c, m.regs, j.locals) && Holds(j.memory, m.mem, saved)
  }

  // ----- running short sequences -----

  ghost predicate Runs(code: seq<J.Bytecode>, st: J.State, end: J.State) {
    J.Run(code, st) == Some(end)
  }

  lemma Run0(st: J.State)
    ensures Runs([], st, st)
  {}

  lemma Run1(b1: J.Bytecode, st: J.State, s1: J.State)
    requires J.Step(b1, st) == Some(s1)
    ensures Runs([b1], st, s1)
  {
    hide J.Step;
    assert J.Run([], s1) == Some(s1);
    assert [b1][1..] == [];
  }

  lemma Run2(b1: J.Bytecode, b2: J.Bytecode, st: J.State, s1: J.State, s2: J.State)
    requires J.Step(b1, st) == Some(s1) && J.Step(b2, s1) == Some(s2)
    ensures Runs([b1, b2], st, s2)
  {
    hide J.Step;
    Run1(b2, s1, s2);
    assert [b1, b2][1..] == [b2];
  }

  lemma Run3(b1: J.Bytecode, b2: J.Bytecode, b3: J.Bytecode, st: J.State, s1: J.State, s2: J.State, s3: J.State)
    requires J.Step(b1, st) == Some(s1) && J.Step(b2, s1) == Some(s2) && J.Step(b3, s2) == Some(s3)
    ensures Runs([b1, b2, b3], st, s3)
  {
    hide J.Step;
    Run2(b2, b3, s1, s2, s3);
    assert [b1, b2, b3][1..] == [b2, b3];
  }

  lemma Run4(b1: J.Bytecode, b2: J.Bytecode, b3: J.Bytecode, b4: J.Bytecode,
             st: J.State, s1: J.State, s2: J.State, s3: J.State, s4: J.State)
    requires J.Step(b1, st) == Some(s1) && J.Step(b2, s1) == Some(s2) && J.Step(b3, s2) == Some(s3)
    requires J.Step(b4, s3) == Some(s4)
    ensures Runs([b1, b2, b3, b4], st, s4)
  {
    hide J.Step;
    Run3(b2, b3, b4, s1, s2, s3, s4);
    assert [b1, b2, b3, b4][1..] == [b2, b3, b4];
  }

  lemma Then(c1: seq<J.Bytecode>, c2: seq<J.Bytecode>, st: J.State, s1: J.State, s2: J.State)
    requires Runs(c1, st, s1) && Runs(c2, s1, s2)
    ensures Runs(c1 + c2, st, s2)
  {
    hide J.Run;
    J.RunAppend(c1, c2, st);
  }

  function Stk(j: J.State, s: J.Stack): J.State {
    j.(stack := s)
  }

  function I(w: Word, s: J.Stack): J.Stack {
    J.On(J.Int(w), s)
  }

  // ----- constants and registers -----

  lemma ConstPushes(v: int, j: J.State, s: J.Stack)
    requires -0x8000_0000 <= v < 0x8000_0000
    ensures J.Step(PushConst(v), Stk(j, s)) == Some(Stk(j, I(Wrap(v), s)))
  {
    ConstSteps(v, Stk(j, s));
    hide J.Step, PushConst;
  }

  lemma ConstSteps(v: int, st: J.State)
    requires -0x8000_0000 <= v < 0x8000_0000
    ensures J.Step(PushConst(v), st) == Some(st.Push(J.Int(Wrap(v))))
  {
    hide SignExtend8, SignExtend16, Wrap, J.StackOp, J.Narrow, J.MemoryOp, J.CallRuntime, J.Unary, J.LongOp, J.IntOp;
    SmallConsts(v);
  }

  lemma SmallConsts(v: int)
    ensures v == -1 ==> Wrap(v) == 0xFFFF_FFFF
    ensures 0 <= v <= 5 ==> Wrap(v) == v
    ensures -128 <= v <= 127 ==> SignExtend8(Wrap(v)) == Wrap(v)
    ensures -32768 <= v <= 32767 ==> SignExtend16(Wrap(v)) == Wrap(v)
  {}

  lemma UnsignedPushes(v: Word, j: J.State, s: J.Stack)
    ensures J.Step(PushUnsigned(v), Stk(j, s)) == Some(Stk(j, I(v, s)))
  {}

  predicate Readable(c: Context, r: Register) {
    r == R_ZERO || Visible(c, r)
  }

  lemma RegisterPushes(c: Context, saved: set<nat>, m: State, j: J.State, r: Register, s: J.Stack)
    requires ValidContext(c) && Related(c, saved, m, j) && Readable(c, r)
    ensures J.Step(PushRegister(c, r), Stk(j, s)) == Some(Stk(j, I(m.Reg(r), s)))
  {
    hide Holds;
  }

  lemma MemoryPushes(c: Context, saved: set<nat>, m: State, j: J.State, s: J.Stack)
    requires Related(c, saved, m, j) && c.Allocated(R_MEM)
    ensures J.Step(PushRegister(c, R_MEM), Stk(j, s)) == Some(Stk(j, J.On(J.MemoryRef, s)))
  {
    hide Holds;
  }

  /** Popping into a register's local sets the register. */
  lemma RegisterPops(c: Context, saved: set<nat>, m: State, j: J.State, r: Register, v: Word, s: J.Stack)
    requires ValidContext(c) && Related(c, saved, m, j)
    requires 1 <= r < 34 && c.Allocated(r)
    ensures var end := J.State(s, j.locals[c.ra[r] := J.Int(v)], j.memory);
            Runs(PopRegister(c, r), Stk(j, I(v, s)), end) && Related(c, saved, m.Set(r, v), end)
  {
    hide Holds;
    var end := J.State(s, j.locals[c.ra[r] := J.Int(v)], j.memory);
    Run1(J.Istore(c.ra[r]), Stk(j, I(v, s)), end);
  }

  // ----- register instructions -----

  /** An int instruction on the two topmost values. */
  lemma IntStep(b: J.Bytecode, j: J.State, a: Word, x: Word, s: J.Stack)
    requires IsIntOp(b)
    requires J.BinaryInt(b, a, x).Some?
    ensures J.Step(b, Stk(j, I(x, I(a, s)))) == Some(Stk(j, I(J.BinaryInt(b, a, x).value, s)))
  {
    hide J.BinaryInt;
  }

  lemma OpRuns(b: J.Bytecode, j: J.State, a: Word, x: Word, s: J.Stack)
    requires IsIntOp(b) && J.BinaryInt(b, a, x).Some?
    ensures Runs([b], Stk(j, I(x, I(a, s))), Stk(j, I(J.BinaryInt(b, a, x).value, s)))
  {
    hide J.BinaryInt;
    IntStep(b, j, a, x, s);
    hide J.Step;
    Run1(b, Stk(j, I(x, I(a, s))), Stk(j, I(J.BinaryInt(b, a, x).value, s)));
  }

  lemma IntMeanings(a: Word, x: Word)
    ensures J.BinaryInt(J.Iand, a, x) == Some(WordAnd(a, x)) && J.BinaryInt(J.Ior, a, x) == Some(WordOr(a, x))
    ensures J.BinaryInt(J.Ixor, a, x) == Some(WordXor(a, x))
    ensures x < 32 ==> J.BinaryInt(J.Ishl, a, x) == Some(ShiftLeft(a, x))
    ensures x < 32 ==> J.BinaryInt(J.Iushr, a, x) == Some(ShiftRightLogical(a, x))
    ensures x < 32 ==> J.BinaryInt(J.Ishr, a, x) == Some(ShiftRightArith(a, x))
    ensures J.BinaryInt(J.Iadd, a, x) == Some(Wrap(a + x)) && J.BinaryInt(J.Isub, a, x) == Some(Wrap(a - x))
  {
    hide WordAnd, WordOr, WordXor, ShiftLeft, ShiftRightLogical, ShiftRightArith, TruncDiv, TruncMod;
  }

  lemma SwapRuns(j: J.State, a: Word, b: Word, s: J.Stack)
    ensures Runs([J.Swap], Stk(j, I(a, I(b, s))), Stk(j, I(b, I(a, s))))
  {
    Run1(J.Swap, Stk(j, I(a, I(b, s))), Stk(j, I(b, I(a, s))));
  }

  lemma DupX2Runs(j: J.State, a: Word, b: Word, d: Word, s: J.Stack)
    ensures Runs([J.DupX2], Stk(j, I(a, I(b, I(d, s)))), Stk(j, I(a, I(b, I(d, I(a, s))))))
  {
    Run1(J.DupX2, Stk(j, I(a, I(b, I(d, s)))), Stk(j, I(a, I(b, I(d, I(a, s))))));
  }

  /** Two registers and an int instruction. */
  lemma BinaryRuns(c: Context, saved: set<nat>, m: State, j: J.State, r1: Register, r2: Register, b: J.Bytecode, s: J.Stack)
    requires ValidContext(c) && Related(c, saved, m, j) && Readable(c, r1) && Readable(c, r2)
    requires IsIntOp(b)
    requires J.BinaryInt(b, m.Reg(r1), m.Reg(r2)).Some?
    ensures Runs([PushRegister(c, r1), PushRegister(c, r2), b], Stk(j, s),
                 Stk(j, I(J.BinaryInt(b, m.Reg(r1), m.Reg(r2)).value, s)))
  {
    hide J.BinaryInt, J.Step, Related, PushRegister;
    var a, x := m.Reg(r1), m.Reg(r2);
    RegisterPushes(c, saved, m, j, r1, s);
    RegisterPushes(c, saved, m, j, r2, I(a, s));
    IntStep(b, j, a, x, s);
    Run3(PushRegister(c, r1), PushRegister(c, r2), b, Stk(j, s), Stk(j, I(a, s)), Stk(j, I(x, I(a, s))),
         Stk(j, I(J.BinaryInt(b, a, x).value, s)));
  }

  lemma PushRuns(c: Context, saved: set<nat>, m: State, j: J.State, r: Register, s: J.Stack)
    requires ValidContext(c) && Related(c, saved, m, j) && Readable(c, r)
    ensures Runs([PushRegister(c, r)], Stk(j, s), Stk(j, I(m.Reg(r), s)))
  {
    RegisterPushes(c, saved, m, j, r, s);
    Run1(PushRegister(c, r), Stk(j, s), Stk(j, I(m.Reg(r), s)));
  }

  /** A register instruction leaves its result on the stack. */
  lemma AluRuns(c: Context, saved: set<nat>, m: State, j: J.State, op: AluOp, rs: Field, rt: Field, s: J.Stack)
    requires ValidContext(c) && Related(c, saved, m, j) && Readable(c, rs) && Readable(c, rt)
    requires AluResult(op, m.Reg(rs), m.Reg(rt)).Some?
    ensures Runs(AluCode(c, op, rs, rt), Stk(j, s), Stk(j, I(AluResult(op, m.Reg(rs), m.Reg(rt)).value, s)))
  {
    hide Related, PushRegister, Runs, WordAnd, WordOr, WordXor, ShiftLeft, ShiftRightLogical, ShiftRightArith, AluCode, AluResult;
    if op in {Addu, Subu, BitNor, AluOp.Slt, AluOp.Sltu} {
      SpecialAluRuns(c, saved, m, j, op, rs, rt, s);
    } else {
      PlainAluRuns(c, saved, m, j, op, rs, rt, s);
    }
  }

  /** The instructions with code of their own. */
  lemma SpecialAluRuns(c: Context, saved: set<nat>, m: State, j: J.State, op: AluOp, rs: Field, rt: Field, s: J.Stack)
    requires ValidContext(c) && Related(c, saved, m, j) && Readable(c, rs) && Readable(c, rt)
    requires op in {Addu, Subu, BitNor, AluOp.Slt, AluOp.Sltu} && AluResult(op, m.Reg(rs), m.Reg(rt)).Some?
    ensures Runs(AluCode(c, op, rs, rt), Stk(j, s), Stk(j, I(AluResult(op, m.Reg(rs), m.Reg(rt)).value, s)))
  {
    hide Related, PushRegister, Runs, WordAnd, WordOr, WordXor, ShiftLeft, ShiftRightLogical, ShiftRightArith;
    match op
    case Addu =>
      if rt != R_ZERO && rs != R_ZERO {
        BinaryRuns(c, saved, m, j, rs, rt, J.Iadd, s);
      } else if rt == R_ZERO {
        PushRuns(c, saved, m, j, rs, s);
      } else {
        PushRuns(c, saved, m, j, rt, s);
      }
    case Subu =>
      if rs == R_ZERO {
        NegRuns(c, saved, m, j, rt, s);
      } else {
        BinaryRuns(c, saved, m, j, rs, rt, J.Isub, s);
      }
    case BitNor => NorRuns(c, saved, m, j, rs, rt, s);
    case Slt => SltRuns(c, saved, m, j, rs, rt, s);
    case Sltu => SltuRuns(c, saved, m, j, rs, rt, s);
  }

  /** The instructions that are one int instruction. */
  lemma PlainAluRuns(c: Context, saved: set<nat>, m: State, j: J.State, op: AluOp, rs: Field, rt: Field, s: J.Stack)
    requires ValidContext(c) && Related(c, saved, m, j) && Readable(c, rs) && Readable(c, rt)
    requires op !in {Addu, Subu, BitNor, AluOp.Slt, AluOp.Sltu} && AluResult(op, m.Reg(rs), m.Reg(rt)).Some?
    ensures Runs(AluCode(c, op, rs, rt), Stk(j, s), Stk(j, I(AluResult(op, m.Reg(rs), m.Reg(rt)).value, s)))
  {
    hide Related, PushRegister, Runs, WordAnd, WordOr, WordXor, ShiftLeft, ShiftRightLogical, ShiftRightArith;
    match op
    case Sllv => BinaryRuns(c, saved, m, j, rt, rs, J.Ishl, s);
    case Srlv => BinaryRuns(c, saved, m, j, rt, rs, J.Iushr, s);
    case Srav => BinaryRuns(c, saved, m, j, rt, rs, J.Ishr, s);
    case Add => BinaryRuns(c, saved, m, j, rs, rt, J.Iadd, s);
    case Sub => BinaryRuns(c, saved, m, j, rs, rt, J.Isub, s);
    case BitAnd => BinaryRuns(c, saved, m, j, rs, rt, J.Iand, s);
    case BitOr => BinaryRuns(c, saved, m, j, rs, rt, J.Ior, s);
    case BitXor => BinaryRuns(c, saved, m, j, rs, rt, J.Ixor, s);
  }

  lemma NegRuns(c: Context, saved: set<nat>, m: State, j: J.State, rt: Field, s: J.Stack)
    requires ValidContext(c) && Related(c, saved, m, j) && Readable(c, rt)
    ensures Runs([PushRegister(c, rt), J.Ineg], Stk(j, s), Stk(j, I(Wrap(0 - m.Reg(rt)), s)))
  {
    hide Related, PushRegister;
    RegisterPushes(c, saved, m, j, rt, s);
    Run2(PushRegister(c, rt), J.Ineg, Stk(j, s), Stk(j, I(m.Reg(rt), s)), Stk(j, I(Wrap(-Signed(m.Reg(rt))), s)));
  }

  /** Exclusive-or with minus one complements. */
  lemma ComplementRuns(j: J.State, w: Word, s: J.Stack)
    ensures Runs([PushConst(-1), J.Ixor], Stk(j, I(w, s)), Stk(j, I(0xFFFF_FFFF - w, s)))
  {
    hide WordXor, PushConst, J.Step, J.BinaryInt;
    ComplementValue(w);
    ConstPushes(-1, j, I(w, s));
    IntMeanings(w, 0xFFFF_FFFF);
    IntStep(J.Ixor, j, w, 0xFFFF_FFFF, s);
    Run2(PushConst(-1), J.Ixor, Stk(j, I(w, s)), Stk(j, I(0xFFFF_FFFF, I(w, s))), Stk(j, I(0xFFFF_FFFF - w, s)));
  }

  lemma ComplementValue(w: Word)
    ensures WordXor(w, 0xFFFF_FFFF) == 0xFFFF_FFFF - w && Wrap(-1) == 0xFFFF_FFFF
  {
    Pow2Values();
    XorOnes(w, 32);
  }

  lemma NorRuns(c: Context, saved: set<nat>, m: State, j: J.State, rs: Field, rt: Field, s: J.Stack)
    requires ValidContext(c) && Related(c, saved, m, j) && Readable(c, rs) && Readable(c, rt)
    ensures Runs(AluCode(c, BitNor, rs, rt), Stk(j, s), Stk(j, I(0xFFFF_FFFF - WordOr(m.Reg(rs), m.Reg(rt)), s)))
  {
    hide Related, PushRegister, Runs;
    var w := WordOr(m.Reg(rs), m.Reg(rt));
    if rs == R_ZERO && rt == R_ZERO {
      ConstPushes(-1, j, s);
      Run1(PushConst(-1), Stk(j, s), Stk(j, I(0xFFFF_FFFF, s)));
    } else {
      ComplementRuns(j, w, s);
      var first := if rs != R_ZERO && rt != R_ZERO then [PushRegister(c, rs), PushRegister(c, rt), J.Ior]
                   else if rs != R_ZERO then [PushRegister(c, rs)] else [PushRegister(c, rt)];
      if rs != R_ZERO && rt != R_ZERO {
        BinaryRuns(c, saved, m, j, rs, rt, J.Ior, s);
      } else if rs != R_ZERO {
        PushRuns(c, saved, m, j, rs, s);
      } else {
        PushRuns(c, saved, m, j, rt, s);
      }
      Then(first, [PushConst(-1), J.Ixor], Stk(j, s), Stk(j, I(w, s)), Stk(j, I(0xFFFF_FFFF - w, s)));
    }
  }

  // ----- the comparison trick -----

  function L(l: Long, s: J.Stack): J.Stack {
    J.On(J.Long(l), s)
  }

  /** One when x is greater than y. */
  lemma GreaterRuns(j: J.State, x: Long, y: Long, s: J.Stack)
    ensures Runs(GREATER, Stk(j, L(y, L(x, s))), Stk(j, I(if x > y then 1 else 0, s)))
  {
    var r: Word := if x < y then 0xFFFF_FFFF else if x == y then 0 else 1;
    var s0, s1 := Stk(j, L(y, L(x, s))), Stk(j, I(r, s));
    Run1(J.Lcmp, s0, s1);
    HalfOfNext(j, r, s);
    hide Runs;
    Then([J.Lcmp], [PushConst(1), J.Iadd, PushConst(1), J.Ishr], s0, s1, Stk(j, I(if r == 1 then 1 else 0, s)));
    assert GREATER == [J.Lcmp] + [PushConst(1), J.Iadd, PushConst(1), J.Ishr];
  }

  lemma HalfOfNext(j: J.State, r: Word, s: J.Stack)
    requires r in {0xFFFF_FFFF, 0, 1}
    ensures Runs([PushConst(1), J.Iadd, PushConst(1), J.Ishr], Stk(j, I(r, s)), Stk(j, I(if r == 1 then 1 else 0, s)))
  {
    hide J.BinaryInt, Runs, PushConst;
    var n := Wrap(r + 1);
    NextAndHalf(r);
    ConstIntRuns(J.Iadd, j, r, 1, s);
    ConstIntRuns(J.Ishr, j, n, 1, s);
    Then([PushConst(1), J.Iadd], [PushConst(1), J.Ishr], Stk(j, I(r, s)), Stk(j, I(n, s)), Stk(j, I(if r == 1 then 1 else 0, s)));
    assert [PushConst(1), J.Iadd, PushConst(1), J.Ishr] == [PushConst(1), J.Iadd] + [PushConst(1), J.Ishr];
  }

  lemma NextAndHalf(r: Word)
    requires r in {0xFFFF_FFFF, 0, 1}
    ensures J.BinaryInt(J.Iadd, r, 1) == Some(Wrap(r + 1))
    ensures J.BinaryInt(J.Ishr, Wrap(r + 1), 1) == Some(if r == 1 then 1 else 0)
  {
    hide ShiftRightArith, J.BinaryInt;
    HalfValue(r);
    IntMeanings(r, 1);
    IntMeanings(Wrap(r + 1), 1);
  }

  lemma HalfValue(r: Word)
    requires r in {0xFFFF_FFFF, 0, 1}
    ensures ShiftRightArith(Wrap(r + 1), 1) == if r == 1 then 1 else 0
  {
    assert Wrap(r + 1) in {0, 1, 2};
    assert Drop(0, 1) == 0 && Drop(1, 1) == 0 && Drop(2, 1) == 1;
  }

  predicate IsIntOp(b: J.Bytecode) {
    b.Iadd? || b.Isub? || b.Imul? || b.Idiv? || b.Irem? || b.Iand? || b.Ior? || b.Ixor? || b.Ishl? || b.Ishr? || b.Iushr?
  }

  /** A constant and an int instruction. */
  lemma ConstIntRuns(b: J.Bytecode, j: J.State, w: Word, k: int, s: J.Stack)
    requires IsIntOp(b) && -0x8000_0000 <= k < 0x8000_0000 && J.BinaryInt(b, w, Wrap(k)).Some?
    ensures Runs([PushConst(k), b], Stk(j, I(w, s)), Stk(j, I(J.BinaryInt(b, w, Wrap(k)).value, s)))
  {
    ConstPushes(k, j, I(w, s));
    IntStep(b, j, w, Wrap(k), s);
    hide J.Step, J.BinaryInt, PushConst;
    Run2(PushConst(k), b, Stk(j, I(w, s)), Stk(j, I(Wrap(k), I(w, s))), Stk(j, I(J.BinaryInt(b, w, Wrap(k)).value, s)));
  }

  lemma SignedLongRuns(c: Context, saved: set<nat>, m: State, j: J.State, r: Field, s: J.Stack)
    requires ValidContext(c) && Related(c, saved, m, j) && Readable(c, r)
    ensures Runs([PushRegister(c, r), J.I2l], Stk(j, s), Stk(j, L(Signed(m.Reg(r)), s)))
  {
    hide Related, PushRegister;
    RegisterPushes(c, saved, m, j, r, s);
    Run2(PushRegister(c, r), J.I2l, Stk(j, s), Stk(j, I(m.Reg(r), s)), Stk(j, L(Signed(m.Reg(r)), s)));
  }

  lemma SltRuns(c: Context, saved: set<nat>, m: State, j: J.State, rs: Field, rt: Field, s: J.Stack)
    requires ValidContext(c) && Related(c, saved, m, j) && Readable(c, rs) && Readable(c, rt)
    ensures Runs(AluCode(c, Slt, rs, rt), Stk(j, s), Stk(j, I(if Signed(m.Reg(rs)) < Signed(m.Reg(rt)) then 1 else 0, s)))
  {
    hide Related, PushRegister, Runs;
    var x, y := Signed(m.Reg(rt)), Signed(m.Reg(rs));
    SignedLongRuns(c, saved, m, j, rt, s);
    SignedLongRuns(c, saved, m, j, rs, L(x, s));
    GreaterRuns(j, x, y, s);
    var c1, c2 := [PushRegister(c, rt), J.I2l], [PushRegister(c, rs), J.I2l];
    Then(c1, c2, Stk(j, s), Stk(j, L(x, s)), Stk(j, L(y, L(x, s))));
    Then(c1 + c2, GREATER, Stk(j, s), Stk(j, L(y, L(x, s))), Stk(j, I(if x > y then 1 else 0, s)));
    assert AluCode(c, Slt, rs, rt) == c1 + c2 + GREATER;
  }

  /** Sign extension and a mask give the unsigned value as a long. */
  lemma MaskedLong(w: Word)
    ensures J.BinaryLong(J.Land, Signed(w), 0xFFFF_FFFF) == Some(J.Long(w))
  {
    hide And;
    MaskLow(Signed(w) % 0x1_0000_0000_0000_0000);
    LowHalf(w);
  }

  lemma MaskLow(x: nat)
    ensures And(x, 0xFFFF_FFFF) == x % 0x1_0000_0000
  {
    Pow32();
    AndMask(x, 32);
    hide And, Low, Pow2;
    LowWord(x);
  }

  lemma Pow32()
    ensures Pow2(32) == 0x1_0000_0000
  {
    Pow2Values();
  }

  lemma LowHalf(w: Word)
    ensures Signed(w) % 0x1_0000_0000_0000_0000 % 0x1_0000_0000 == w && WrapLong(w) == w
  {
    if w < 0x8000_0000 {
      assert Signed(w) % 0x1_0000_0000_0000_0000 == w;
    } else {
      assert Signed(w) % 0x1_0000_0000_0000_0000 == w + 0xFFFF_FFFF_0000_0000;
    }
  }

  lemma MaskRuns(j: J.State, w: Word, s: J.Stack)
    ensures Runs([J.I2l, MASK, J.Land], Stk(j, I(w, s)), Stk(j, L(w, s)))
  {
    MaskedLong(w);
    hide J.BinaryLong;
    Run3(J.I2l, MASK, J.Land, Stk(j, I(w, s)), Stk(j, L(Signed(w), s)), Stk(j, L(0xFFFF_FFFF, L(Signed(w), s))), Stk(j, L(w, s)));
  }

  lemma UnsignedLongRuns(c: Context, saved: set<nat>, m: State, j: J.State, r: Field, s: J.Stack)
    requires ValidContext(c) && Related(c, saved, m, j) && Readable(c, r)
    ensures Runs([PushRegister(c, r), J.I2l, MASK, J.Land], Stk(j, s), Stk(j, L(m.Reg(r), s)))
  {
    hide Related, PushRegister, Runs;
    PushRuns(c, saved, m, j, r, s);
    MaskRuns(j, m.Reg(r), s);
    Then([PushRegister(c, r)], [J.I2l, MASK, J.Land], Stk(j, s), Stk(j, I(m.Reg(r), s)), Stk(j, L(m.Reg(r), s)));
    assert [PushRegister(c, r), J.I2l, MASK, J.Land] == [PushRegister(c, r)] + [J.I2l, MASK, J.Land];
  }

  lemma SltuRuns(c: Context, saved: set<nat>, m: State, j: J.State, rs: Field, rt: Field, s: J.Stack)
    requires ValidContext(c) && Related(c, saved, m, j) && Readable(c, rs) && Readable(c, rt)
    ensures Runs(AluCode(c, Sltu, rs, rt), Stk(j, s), Stk(j, I(if m.Reg(rs) < m.Reg(rt) then 1 else 0, s)))
  {
    hide Related, PushRegister, Runs;
    var x, y := m.Reg(rt), m.Reg(rs);
    UnsignedLongRuns(c, saved, m, j, rt, s);
    UnsignedLongRuns(c, saved, m, j, rs, L(x, s));
    GreaterRuns(j, x, y, s);
    var c1, c2 := [PushRegister(c, rt), J.I2l, MASK, J.Land], [PushRegister(c, rs), J.I2l, MASK, J.Land];
    Then(c1, c2, Stk(j, s), Stk(j, L(x, s)), Stk(j, L(y, L(x, s))));
    Then(c1 + c2, GREATER, Stk(j, s), Stk(j, L(y, L(x, s))), Stk(j, I(if x > y then 1 else 0, s)));
  }

  // ----- immediates -----

  lemma ImmRuns(c: Context, saved: set<nat>, m: State, j: J.State, op: ImmOp, rs: Field, imm: Immediate, s: J.Stack)
    requires ValidContext(c) && Related(c, saved, m, j) && Readable(c, rs)
    requires Encodable(Imm(op, rs, 0, imm)) && ImmResult(op, m.Reg(rs), imm).Some?
    ensures Runs(ImmCode(c, op, rs, imm), Stk(j, s), Stk(j, I(ImmResult(op, m.Reg(rs), imm).value, s)))
  {
    hide Related, PushRegister, Runs, WordAnd, WordOr, WordXor;
    var a := m.Reg(rs);
    match op
    case Addi => AddImmRuns(c, saved, m, j, rs, imm, s);
    case Addiu => AddImmRuns(c, saved, m, j, rs, imm, s);
    case Andi => RegisterConstRuns(c, saved, m, j, rs, imm, J.Iand, s);
    case Ori => RegisterConstRuns(c, saved, m, j, rs, imm, J.Ior, s);
    case Xori => RegisterConstRuns(c, saved, m, j, rs, imm, J.Ixor, s);
    case Slti =>
      ConstLongRuns(j, imm, s);
      SignedLongRuns(c, saved, m, j, rs, L(imm, s));
      GreaterRuns(j, imm, Signed(a), s);
      var c1, c2 := [PushConst(imm), J.I2l], [PushRegister(c, rs), J.I2l];
      Then(c1, c2, Stk(j, s), Stk(j, L(imm, s)), Stk(j, L(Signed(a), L(imm, s))));
      Then(c1 + c2, GREATER, Stk(j, s), Stk(j, L(Signed(a), L(imm, s))), Stk(j, I(if imm > Signed(a) then 1 else 0, s)));
      assert ImmCode(c, op, rs, imm) == c1 + c2 + GREATER;
    case Sltiu =>
      var x := Wrap(imm);
      Run1(J.Ldc2(x), Stk(j, s), Stk(j, L(x, s)));
      UnsignedLongRuns(c, saved, m, j, rs, L(x, s));
      GreaterRuns(j, x, a, s);
      var c1, c2 := [J.Ldc2(x)], [PushRegister(c, rs), J.I2l, MASK, J.Land];
      Then(c1, c2, Stk(j, s), Stk(j, L(x, s)), Stk(j, L(a, L(x, s))));
      Then(c1 + c2, GREATER, Stk(j, s), Stk(j, L(a, L(x, s))), Stk(j, I(if x > a then 1 else 0, s)));
      assert ImmCode(c, op, rs, imm) == c1 + c2 + GREATER;
  }

  lemma ConstLongRuns(j: J.State, imm: Immediate, s: J.Stack)
    requires imm < 0x8000
    ensures Runs([PushConst(imm), J.I2l], Stk(j, s), Stk(j, L(imm, s)))
  {
    ConstPushes(imm, j, s);
    hide PushConst;
    Run2(PushConst(imm), J.I2l, Stk(j, s), Stk(j, I(Wrap(imm), s)), Stk(j, L(imm, s)));
  }

  lemma AddImmRuns(c: Context, saved: set<nat>, m: State, j: J.State, rs: Field, imm: Immediate, s: J.Stack)
    requires ValidContext(c) && Related(c, saved, m, j) && Readable(c, rs)
    ensures Runs(ImmCode(c, Addiu, rs, imm), Stk(j, s), Stk(j, I(Wrap(m.Reg(rs) + imm), s)))
  {
    hide Related, PushRegister;
    if rs == R_ZERO {
      ConstPushes(imm, j, s);
      Run1(PushConst(imm), Stk(j, s), Stk(j, I(Wrap(imm), s)));
    } else {
      WrapAdd(m.Reg(rs), imm);
      RegisterConstRuns(c, saved, m, j, rs, imm, J.Iadd, s);
    }
  }

  lemma WrapAdd(a: Word, k: int)
    ensures Wrap(a + Wrap(k)) == Wrap(a + k)
  {}

  lemma RegisterConstRuns(c: Context, saved: set<nat>, m: State, j: J.State, r: Register, k: int, b: J.Bytecode, s: J.Stack)
    requires ValidContext(c) && Related(c, saved, m, j) && Readable(c, r)
    requires IsIntOp(b) && -0x8000_0000 <= k < 0x8000_0000 && J.BinaryInt(b, m.Reg(r), Wrap(k)).Some?
    ensures Runs([PushRegister(c, r), PushConst(k), b], Stk(j, s), Stk(j, I(J.BinaryInt(b, m.Reg(r), Wrap(k)).value, s)))
  {
    hide Related, PushRegister, Runs, J.BinaryInt;
    PushRuns(c, saved, m, j, r, s);
    ConstIntRuns(b, j, m.Reg(r), k, s);
    Then([PushRegister(c, r)], [PushConst(k), b], Stk(j, s), Stk(j, I(m.Reg(r), s)),
         Stk(j, I(J.BinaryInt(b, m.Reg(r), Wrap(k)).value, s)));
    assert [PushRegister(c, r), PushConst(k), b] == [PushRegister(c, r)] + [PushConst(k), b];
  }

  lemma ShiftRuns(c: Context, saved: set<nat>, m: State, j: J.State, op: ShiftOp, rt: Field, amount: nat, s: J.Stack)
    requires ValidContext(c) && Related(c, saved, m, j) && Readable(c, rt) && amount < 32
    ensures Runs([PushRegister(c, rt), PushConst(amount), ShiftOpcode(op)], Stk(j, s),
                 Stk(j, I(ShiftResult(op, m.Reg(rt), amount), s)))
  {
    hide Related, PushRegister, Runs, ShiftLeft, ShiftRightLogical, ShiftRightArith, PushConst;
    RegisterConstRuns(c, saved, m, j, rt, amount, ShiftOpcode(op), s);
  }

  // ----- addresses -----

  lemma AddOffsetRuns(j: J.State, w: Word, offset: int, s: J.Stack)
    requires -0x8000_0000 <= offset < 0x8000_0000
    ensures Runs(AddOffset(offset), Stk(j, I(w, s)), Stk(j, I(Wrap(w + offset), s)))
  {
    if offset != 0 {
      WrapAdd(w, offset);
      ConstIntRuns(J.Iadd, j, w, offset, s);
    } else {
      Run0(Stk(j, I(w, s)));
    }
  }

  lemma AddressRuns(c: Context, saved: set<nat>, m: State, j: J.State, rs: Field, offset: Immediate, s: J.Stack)
    requires ValidContext(c) && Related(c, saved, m, j) && Readable(c, rs)
    ensures Runs(PushAddress(c, rs, offset), Stk(j, s), Stk(j, I(m.Address(rs, offset), s)))
  {
    hide Related, PushRegister, Runs, AddOffset;
    PushRuns(c, saved, m, j, rs, s);
    AddOffsetRuns(j, m.Reg(rs), offset, s);
    Then([PushRegister(c, rs)], AddOffset(offset), Stk(j, s), Stk(j, I(m.Reg(rs), s)), Stk(j, I(m.Address(rs, offset), s)));
  }

  /** The word index that `bc_pushindex` computes. */
  function Index(base: Word, offset: int): Word {
    if offset % 4 != 0 then Wrap(base + offset) / 4 else Wrap(base / 4 + offset / 4)
  }

  /** It is the index of the effective address exactly when the displacement is added before the shift or
      the address does not wrap. */
  lemma IndexIsAddressIff(base: Word, offset: Immediate)
    ensures Index(base, offset) == Wrap(base + offset) / 4 <==>
            offset % 4 != 0 || 0 <= base + offset < 0x1_0000_0000
  {
    if offset % 4 == 0 {
      var k := offset / 4;
      assert (base + 4 * k) / 4 == base / 4 + k;
    }
  }

  lemma HalvedTwice(w: Word)
    ensures J.BinaryInt(J.Iushr, w, 2) == Some(w / 4)
  {
    assert ShiftRightLogical(w, 2) == w / 4 by { DropEight(w); }
    hide ShiftRightLogical;
  }

  lemma QuarterRuns(j: J.State, w: Word, s: J.Stack)
    ensures Runs([PushConst(2), J.Iushr], Stk(j, I(w, s)), Stk(j, I(w / 4, s)))
  {
    hide J.BinaryInt, PushConst, Runs;
    HalvedTwice(w);
    ConstIntRuns(J.Iushr, j, w, 2, s);
  }

  lemma IndexRuns(c: Context, saved: set<nat>, m: State, j: J.State, rs: Field, offset: Immediate, s: J.Stack)
    requires ValidContext(c) && Related(c, saved, m, j) && Readable(c, rs)
    ensures Runs(PushIndex(c, rs, offset), Stk(j, s), Stk(j, I(Index(m.Reg(rs), offset), s)))
  {
    hide Related, PushRegister, Runs, AddOffset, PushConst, Wrap;
    var a, e := m.Reg(rs), m.Address(rs, offset);
    if offset % 4 != 0 {
      AddressRuns(c, saved, m, j, rs, offset, s);
      QuarterRuns(j, e, s);
      Then(PushAddress(c, rs, offset), [PushConst(2), J.Iushr], Stk(j, s), Stk(j, I(e, s)), Stk(j, I(e / 4, s)));
    } else {
      PushRuns(c, saved, m, j, rs, s);
      LateOffsetRuns(j, a, offset / 4, s);
      var tail := [PushConst(2), J.Iushr] + AddOffset(offset / 4);
      Then([PushRegister(c, rs)], tail, Stk(j, s), Stk(j, I(a, s)), Stk(j, I(Wrap(a / 4 + offset / 4), s)));
      assert PushIndex(c, rs, offset) == [PushRegister(c, rs)] + tail;
    }
  }

  lemma LateOffsetRuns(j: J.State, a: Word, k: int, s: J.Stack)
    requires -0x8000_0000 <= k < 0x8000_0000
    ensures Runs([PushConst(2), J.Iushr] + AddOffset(k), Stk(j, I(a, s)), Stk(j, I(Wrap(a / 4 + k), s)))
  {
    hide Runs, AddOffset, PushConst;
    QuarterRuns(j, a, s);
    AddOffsetRuns(j, a / 4, k, s);
    Then([PushConst(2), J.Iushr], AddOffset(k), Stk(j, I(a, s)), Stk(j, I(a / 4, s)), Stk(j, I(Wrap(a / 4 + k), s)));
  }

  // ----- loads -----

  /** The word that holds the effective address, left on the stack. */
  lemma WordRuns(c: Context, saved: set<nat>, m: State, j: J.State, rs: Field, offset: Immediate, s: J.Stack)
    requires ValidContext(c) && Related(c, saved, m, j) && Readable(c, rs) && c.Allocated(R_MEM)
    requires Index(m.Reg(rs), offset) == m.Address(rs, offset) / 4
    requires m.Address(rs, offset) < |m.mem|
    ensures m.Address(rs, offset) / 4 < |j.memory|
    ensures Runs(WordCode(c, rs, offset), Stk(j, s), Stk(j, I(j.memory[m.Address(rs, offset) / 4], s)))
  {
    var i := m.Address(rs, offset) / 4;
    assert |m.mem| == 4 * |j.memory|;
    hide Related, PushRegister, Index, PushIndex;
    MemoryPushes(c, saved, m, j, s);
    IndexRuns(c, saved, m, j, rs, offset, J.On(J.MemoryRef, s));
    var s1, s2 := Stk(j, J.On(J.MemoryRef, s)), Stk(j, I(i, J.On(J.MemoryRef, s)));
    LoadStep(j, i, s);
    hide J.Step;
    Run1(PushRegister(c, R_MEM), Stk(j, s), s1);
    Run1(J.Iaload, s2, Stk(j, I(j.memory[i], s)));
    hide Runs;
    Then([PushRegister(c, R_MEM)], PushIndex(c, rs, offset), Stk(j, s), s1, s2);
    Then([PushRegister(c, R_MEM)] + PushIndex(c, rs, offset), [J.Iaload], Stk(j, s), s2, Stk(j, I(j.memory[i], s)));
  }

  lemma LoadStep(j: J.State, i: Word, s: J.Stack)
    requires i < |j.memory|
    ensures J.Step(J.Iaload, Stk(j, I(i, J.On(J.MemoryRef, s)))) == Some(Stk(j, I(j.memory[i], s)))
  {}

  lemma BitShiftRuns(c: Context, saved: set<nat>, m: State, j: J.State, last: Word, rs: Field, offset: Immediate, s: J.Stack)
    requires ValidContext(c) && Related(c, saved, m, j) && Readable(c, rs) && last in {2, 3}
    ensures Runs(BitShift(c, last, rs, offset), Stk(j, s),
                 Stk(j, I(CRunTime.BitPosition(last, m.Address(rs, offset)), s)))
  {
    hide Related, PushRegister, Runs, AddOffset, PushConst, WordAnd;
    var e := m.Address(rs, offset);
    var below := I(last, s);
    ConstPushes(last, j, s);
    Run1(PushConst(last), Stk(j, s), Stk(j, below));
    AddressRuns(c, saved, m, j, rs, offset, below);
    Then([PushConst(last)], PushAddress(c, rs, offset), Stk(j, s), Stk(j, below), Stk(j, I(e, below)));
    PositionRuns(j, last, e, s);
    Then([PushConst(last)] + PushAddress(c, rs, offset), [PushConst(last), J.Iand, J.Isub, PushConst(3), J.Ishl],
         Stk(j, s), Stk(j, I(e, below)), Stk(j, I(CRunTime.BitPosition(last, e), s)));
    assert BitShift(c, last, rs, offset) ==
           [PushConst(last)] + PushAddress(c, rs, offset) + [PushConst(last), J.Iand, J.Isub, PushConst(3), J.Ishl];
  }

  lemma PositionRuns(j: J.State, last: Word, e: Word, s: J.Stack)
    requires last in {2, 3}
    ensures Runs([PushConst(last), J.Iand, J.Isub, PushConst(3), J.Ishl], Stk(j, I(e, I(last, s))),
                 Stk(j, I(CRunTime.BitPosition(last, e), s)))
  {
    hide PushConst, WordAnd, WordOr, WordXor, ShiftLeft, ShiftRightLogical, ShiftRightArith, TruncDiv, TruncMod, Runs;
    var a := WordAnd(e, last);
    var d := Wrap(last - a);
    ConstIntRuns(J.Iand, j, e, last, I(last, s));
    IntStep(J.Isub, j, last, a, s);
    Run1(J.Isub, Stk(j, I(a, I(last, s))), Stk(j, I(d, s)));
    ConstIntRuns(J.Ishl, j, d, 3, s);
    Then([PushConst(last), J.Iand], [J.Isub], Stk(j, I(e, I(last, s))), Stk(j, I(a, I(last, s))), Stk(j, I(d, s)));
    Then([PushConst(last), J.Iand] + [J.Isub], [PushConst(3), J.Ishl], Stk(j, I(e, I(last, s))), Stk(j, I(d, s)),
         Stk(j, I(ShiftLeft(d, 3), s)));
    assert [PushConst(last), J.Iand, J.Isub, PushConst(3), J.Ishl] ==
           [PushConst(last), J.Iand] + [J.Isub] + [PushConst(3), J.Ishl];
  }

  /** What the conversion makes of the shifted word. */
  function Converted(op: LoadOp, x: Word): Word
    requires op != Lw
  {
    match op
    case Lb => SignExtend8(x)
    case Lbu => WordAnd(x, 0xFF)
    case Lh => SignExtend16(x)
    case Lhu => x % 0x1_0000
  }

  lemma ConvertRuns(j: J.State, op: LoadOp, x: Word, s: J.Stack)
    requires op != Lw
    ensures Runs(Convert(op), Stk(j, I(x, s)), Stk(j, I(Converted(op, x), s)))
  {
    match op
    case Lbu =>
      assert J.BinaryInt(J.Iand, x, 0xFF) == Some(WordAnd(x, 0xFF));
      hide J.BinaryInt, PushConst, WordAnd;
      ConstIntRuns(J.Iand, j, x, 0xFF, s);
    case Lb => Run1(J.I2b, Stk(j, I(x, s)), Stk(j, I(SignExtend8(x), s)));
    case Lhu => Run1(J.I2c, Stk(j, I(x, s)), Stk(j, I(x % 0x1_0000, s)));
    case Lh => Run1(J.I2s, Stk(j, I(x, s)), Stk(j, I(SignExtend16(x), s)));
  }

  /** The shifted and converted word is the loaded value. */
  lemma PartialValue(op: LoadOp, words: seq<Word>, bytes: seq<Byte>, saved: set<nat>, e: Word)
    requires op != Lw && Holds(words, bytes, saved) && LoadResult(op, bytes, e).Some? && e / 4 !in saved
    ensures var b := CRunTime.BitPosition(LastByte(op), e);
            b < 32 && Converted(op, ShiftRightLogical(words[e / 4], b)) == LoadResult(op, bytes, e).value
  {
    hide *;
    LoadedByte(op, bytes, e);
    BitPositions(op, e);
    HeldByte(words, bytes, saved, e);
    WordInRange(words, bytes, saved, e);
    if op == Lb || op == Lbu {
      ShiftedByteValue(words[e / 4], e % 4);
      ConvertedByte(op, words[e / 4], e % 4);
    } else {
      EvenParts(e);
      HeldByte(words, bytes, saved, e + 1);
      ConvertedShort(op, words[e / 4], e % 4);
    }
  }

  lemma WordInRange(words: seq<Word>, bytes: seq<Byte>, saved: set<nat>, e: Word)
    requires Holds(words, bytes, saved) && e < |bytes|
    ensures e / 4 < |words|
  {}

  lemma BitPositions(op: LoadOp, e: Word)
    ensures op in {Lb, Lbu} ==> CRunTime.BitPosition(LastByte(op), e) == 8 * (3 - e % 4)
    ensures op in {Lh, Lhu} && e % 2 == 0 ==> CRunTime.BitPosition(LastByte(op), e) == 8 * (2 - e % 4)
  {
    hide CRunTime.BitPosition;
    CRunTime.BytePosition(e);
    CRunTime.ShortPosition(e);
  }

  lemma EvenParts(e: Word)
    ensures e % 2 == 0 ==> e % 4 in {0, 2} && (e + 1) % 4 == e % 4 + 1
  {}

  lemma ConvertedByte(op: LoadOp, w: Word, k: nat)
    requires op in {Lb, Lbu} && k < 4
    ensures var x := ShiftRightLogical(w, 8 * (3 - k));
            Converted(op, x) == if op == Lb then SignExtend8(ByteOf(w, k)) else ByteOf(w, k)
  {
    hide ShiftRightLogical, SignExtend8, WordAnd, ByteOf;
    ShiftedByteValue(w, k);
  }

  lemma ConvertedShort(op: LoadOp, w: Word, k: nat)
    requires op in {Lh, Lhu} && k in {0, 2}
    ensures var x, h := ShiftRightLogical(w, 8 * (2 - k)), Short(ByteOf(w, k), ByteOf(w, k + 1));
            Converted(op, x) == if op == Lh then SignExtend16(h) else h
  {
    hide ShiftRightLogical, SignExtend16, Short, ByteOf;
    ShiftedShortValue(w, k);
  }

  lemma ShiftedByteValue(w: Word, k: nat)
    requires k < 4
    ensures var x := ShiftRightLogical(w, 8 * (3 - k));
            WordAnd(x, 0xFF) == ByteOf(w, k) && SignExtend8(x) == SignExtend8(ByteOf(w, k))
  {
    hide ShiftRightLogical, WordAnd, ByteOf;
    CRunTime.MaskByte(w, k);
    ModByte(w, k);
    SameSign(ShiftRightLogical(w, 8 * (3 - k)), ByteOf(w, k));
  }

  lemma SameSign(x: Word, b: Byte)
    requires x % 0x100 == b
    ensures SignExtend8(x) == SignExtend8(b)
  {}

  lemma ModByte(w: Word, k: nat)
    requires k < 4
    ensures ShiftRightLogical(w, 8 * (3 - k)) % 0x100 == ByteOf(w, k)
  {
    hide Low, Drop, ByteOf;
    ReadByteField(w, k);
    LowByte(Drop(w, 8 * (3 - k)));
  }

  lemma ShiftedShortValue(w: Word, k: nat)
    requires k in {0, 2}
    ensures var x, h := ShiftRightLogical(w, 8 * (2 - k)), Short(ByteOf(w, k), ByteOf(w, k + 1));
            x % 0x1_0000 == h && SignExtend16(x) == SignExtend16(h)
  {
    ModShort(w, k);
    hide ShiftRightLogical, Short;
  }

  lemma ModShort(w: Word, k: nat)
    requires k in {0, 2}
    ensures ShiftRightLogical(w, 8 * (2 - k)) % 0x1_0000 == Short(ByteOf(w, k), ByteOf(w, k + 1))
  {
    hide Low, Drop, ByteOf;
    ReadShortField(w, k);
    LowByte(Drop(w, 8 * (2 - k)));
  }

  lemma ShiftStep(j: J.State, w: Word, b: Word, s: J.Stack)
    requires b < 32
    ensures Runs([J.Iushr], Stk(j, I(b, I(w, s))), Stk(j, I(ShiftRightLogical(w, b), s)))
  {
    hide WordAnd, WordOr, WordXor, ShiftLeft, ShiftRightLogical, ShiftRightArith, TruncDiv, TruncMod;
    IntStep(J.Iushr, j, w, b, s);
    Run1(J.Iushr, Stk(j, I(b, I(w, s))), Stk(j, I(ShiftRightLogical(w, b), s)));
  }

  lemma InlineLoadRuns(c: Context, saved: set<nat>, m: State, j: J.State, op: LoadOp, rs: Field, offset: Immediate, s: J.Stack)
    requires ValidContext(c) && Related(c, saved, m, j) && Readable(c, rs) && c.Allocated(R_MEM) && op != Lw && c.inlines
    requires Index(m.Reg(rs), offset) == m.Address(rs, offset) / 4
    requires LoadResult(op, m.mem, m.Address(rs, offset)).Some? && m.Address(rs, offset) / 4 !in saved
    ensures Runs(LoadCode(c, op, rs, offset), Stk(j, s), Stk(j, I(LoadResult(op, m.mem, m.Address(rs, offset)).value, s)))
  {
    var e := m.Address(rs, offset);
    var b := CRunTime.BitPosition(LastByte(op), e);
    PartialValue(op, j.memory, m.mem, saved, e);
    hide Related, Runs, WordCode, BitShift, Converted, Convert, ShiftRightLogical, CRunTime.BitPosition, Index;
    WordRuns(c, saved, m, j, rs, offset, s);
    var w := j.memory[e / 4];
    BitShiftRuns(c, saved, m, j, LastByte(op), rs, offset, I(w, s));
    ShiftStep(j, w, b, s);
    var x := ShiftRightLogical(w, b);
    ConvertRuns(j, op, x, s);
    var c1, c2 := WordCode(c, rs, offset), BitShift(c, LastByte(op), rs, offset);
    var s1, s2, s3 := Stk(j, I(w, s)), Stk(j, I(b, I(w, s))), Stk(j, I(x, s));
    Then(c1, c2, Stk(j, s), s1, s2);
    Then(c1 + c2, [J.Iushr], Stk(j, s), s2, s3);
    Then(c1 + c2 + [J.Iushr], Convert(op), Stk(j, s), s3, Stk(j, I(Converted(op, x), s)));
  }

  /** The runtime's reads give the loaded value. */
  lemma RuntimeValue(op: LoadOp, words: CRunTime.Memory, bytes: seq<Byte>, saved: set<nat>, e: Word)
    requires op != Lw && Holds(words, bytes, saved) && LoadResult(op, bytes, e).Some? && e / 4 !in saved
    ensures J.ReadMemory(ReadKindOf(op), words, e) == LoadResult(op, bytes, e)
  {
    hide *;
    LoadedByte(op, bytes, e);
    SameByte(words, bytes, saved, e);
    if op == Lb || op == Lbu {
      RuntimeByte(op, words, e);
    } else {
      SameByte(words, bytes, saved, e + 1);
      RuntimeShort(op, words, e);
    }
  }

  lemma LoadedByte(op: LoadOp, bytes: seq<Byte>, e: Word)
    requires op != Lw && LoadResult(op, bytes, e).Some?
    ensures e < |bytes| && (op == Lb ==> LoadResult(op, bytes, e).value == SignExtend8(bytes[e]))
    ensures op == Lbu ==> LoadResult(op, bytes, e).value == bytes[e]
    ensures op in {Lh, Lhu} ==> e % 2 == 0 && e + 1 < |bytes| && (e + 1) / 4 == e / 4
    ensures op == Lh ==> LoadResult(op, bytes, e).value == SignExtend16(Short(bytes[e], bytes[e + 1]))
    ensures op == Lhu ==> LoadResult(op, bytes, e).value == Short(bytes[e], bytes[e + 1])
    ensures op in {Lb, Lbu, Lh, Lhu}
  {
    hide SignExtend8, SignExtend16, Short, Join;
    SameWord(e);
    match op
    case Lb =>
    case Lbu =>
    case Lh =>
    case Lhu =>
  }

  lemma SameWord(e: Word)
    ensures e % 2 == 0 ==> (e + 1) / 4 == e / 4
  {}

  lemma RuntimeByte(op: LoadOp, words: CRunTime.Memory, e: Word)
    requires op in {Lb, Lbu} && e < |Bytes(words)|
    ensures J.ReadMemory(ReadKindOf(op), words, e) == Some(if op == Lb then SignExtend8(Bytes(words)[e]) else Bytes(words)[e])
  {
    hide Bytes, CRunTime.MemoryReadByte, CRunTime.MemoryReadByteUnsigned, CRunTime.MemoryReadShort,
         CRunTime.MemoryReadShortUnsigned, CRunTime.MemoryReadWordLeft, SignExtend8;
  }

  lemma RuntimeShort(op: LoadOp, words: CRunTime.Memory, e: Word)
    requires op in {Lh, Lhu} && e + 1 < |Bytes(words)| && e % 2 == 0
    ensures var h := Short(Bytes(words)[e], Bytes(words)[e + 1]);
            J.ReadMemory(ReadKindOf(op), words, e) == Some(if op == Lh then SignExtend16(h) else h)
  {
    assert e / 2 * 2 == e;
    hide Bytes, CRunTime.MemoryReadByte, CRunTime.MemoryReadByteUnsigned, CRunTime.MemoryReadShort,
         CRunTime.MemoryReadShortUnsigned, CRunTime.MemoryReadWordLeft, SignExtend16, Short;
  }

  lemma SameByte(words: seq<Word>, bytes: seq<Byte>, saved: set<nat>, a: nat)
    requires Holds(words, bytes, saved) && a < |bytes| && a / 4 !in saved
    ensures a < |Bytes(words)| && Bytes(words)[a] == bytes[a]
  {
    HeldByte(words, bytes, saved, a);
  }

  lemma InvokeReadRuns(j: J.State, kind: J.ReadKind, e: Word, v: Word, s: J.Stack)
    requires J.ReadMemory(kind, j.memory, e) == Some(v)
    ensures Runs([J.Invoke(J.MemoryRead(kind))], Stk(j, I(e, s)), Stk(j, I(v, s)))
  {
    hide J.ReadMemory;
    Run1(J.Invoke(J.MemoryRead(kind)), Stk(j, I(e, s)), Stk(j, I(v, s)));
  }

  lemma CallLoadRuns(c: Context, saved: set<nat>, m: State, j: J.State, op: LoadOp, rs: Field, offset: Immediate, s: J.Stack)
    requires ValidContext(c) && Related(c, saved, m, j) && Readable(c, rs) && op != Lw && !c.inlines
    requires LoadResult(op, m.mem, m.Address(rs, offset)).Some? && m.Address(rs, offset) / 4 !in saved
    ensures Runs(LoadCode(c, op, rs, offset), Stk(j, s), Stk(j, I(LoadResult(op, m.mem, m.Address(rs, offset)).value, s)))
  {
    var e := m.Address(rs, offset);
    RuntimeValue(op, j.memory, m.mem, saved, e);
    hide Related, PushAddress, LoadResult, J.ReadMemory;
    var v := LoadResult(op, m.mem, e).value;
    AddressRuns(c, saved, m, j, rs, offset, s);
    InvokeReadRuns(j, ReadKindOf(op), e, v, s);
    hide Runs, ReadKindOf;
    Then(PushAddress(c, rs, offset), [J.Invoke(J.MemoryRead(ReadKindOf(op)))], Stk(j, s), Stk(j, I(e, s)), Stk(j, I(v, s)));
  }

  /** A load leaves the loaded value on the stack. */
  lemma LoadRuns(c: Context, saved: set<nat>, m: State, j: J.State, op: LoadOp, rs: Field, offset: Immediate, s: J.Stack)
    requires ValidContext(c) && Related(c, saved, m, j) && Readable(c, rs) && c.Allocated(R_MEM)
    requires op == Lw || c.inlines ==> Index(m.Reg(rs), offset) == m.Address(rs, offset) / 4
    requires LoadResult(op, m.mem, m.Address(rs, offset)).Some? && m.Address(rs, offset) / 4 !in saved
    ensures Runs(LoadCode(c, op, rs, offset), Stk(j, s), Stk(j, I(LoadResult(op, m.mem, m.Address(rs, offset)).value, s)))
  {
    var e := m.Address(rs, offset);
    if op == Lw {
      WordRuns(c, saved, m, j, rs, offset, s);
      assert 4 * (e / 4) == e;
      assert j.memory[e / 4] == LoadResult(op, m.mem, e).value;
    } else {
      hide Related, Runs, LoadCode, LoadResult, Index;
      if c.inlines {
        InlineLoadRuns(c, saved, m, j, op, rs, offset, s);
      } else {
        CallLoadRuns(c, saved, m, j, op, rs, offset, s);
      }
    }
  }

  // ----- stores -----

  /** The words apart after an instruction: a dropped store of `$ra` adds its word, a whole-word store takes
      its word back. */
  function Apart(c: Context, insn: Insn, m: State, saved: set<nat>): set<nat> {
    if !insn.Store? then saved
    else if SkipsRa(c, insn) then saved + {m.Address(insn.rs, insn.offset) / 4}
    else if insn.stop == Sw then saved - {m.Address(insn.rs, insn.offset) / 4}
    else saved
  }

  lemma WordStoreRuns(c: Context, saved: set<nat>, m: State, j: J.State, rs: Field, rt: Field, offset: Immediate, s: J.Stack)
    requires ValidContext(c) && Related(c, saved, m, j) && Readable(c, rs) && Readable(c, rt) && c.Allocated(R_MEM)
    requires Index(m.Reg(rs), offset) == m.Address(rs, offset) / 4 && m.Address(rs, offset) < |m.mem|
    ensures m.Address(rs, offset) / 4 < |j.memory|
    ensures Runs(StoreCode(c, Sw, rs, rt, offset), Stk(j, s),
                 Stk(j, s).(memory := j.memory[m.Address(rs, offset) / 4 := m.Reg(rt)]))
  {
    var i, v := m.Address(rs, offset) / 4, m.Reg(rt);
    assert |m.mem| == 4 * |j.memory|;
    hide Related, PushRegister, Index, PushIndex;
    var below := J.On(J.MemoryRef, s);
    var s1, s2, s3, end := Stk(j, below), Stk(j, I(i, below)), Stk(j, I(v, I(i, below))), Stk(j, s).(memory := j.memory[i := v]);
    MemoryPushes(c, saved, m, j, s);
    IndexRuns(c, saved, m, j, rs, offset, below);
    RegisterPushes(c, saved, m, j, rt, I(i, below));
    StoreStep(j, i, v, s);
    hide J.Step;
    Run1(PushRegister(c, R_MEM), Stk(j, s), s1);
    Run2(PushRegister(c, rt), J.Iastore, s2, s3, end);
    hide Runs;
    Then([PushRegister(c, R_MEM)], PushIndex(c, rs, offset), Stk(j, s), s1, s2);
    Then([PushRegister(c, R_MEM)] + PushIndex(c, rs, offset), [PushRegister(c, rt), J.Iastore], Stk(j, s), s2, end);
  }

  lemma StoreStep(j: J.State, i: Word, v: Word, s: J.Stack)
    requires i < |j.memory|
    ensures J.Step(J.Iastore, Stk(j, I(v, I(i, J.On(J.MemoryRef, s))))) == Some(Stk(j, s).(memory := j.memory[i := v]))
  {}

  /** Clearing the field in the loaded word: from shift, mask, word to cleared word above the shift. */
  lemma ClearRuns(j: J.State, b: Word, mask: Word, w: Word, i: Word, s: J.Stack)
    requires b < 32
    ensures Runs([J.DupX2, J.Ishl, PushConst(-1), J.Ixor, J.Iand], Stk(j, I(b, I(mask, I(w, I(i, s))))),
                 Stk(j, I(WordAnd(w, WordXor(ShiftLeft(mask, b), 0xFFFF_FFFF)), I(b, I(i, s)))))
  {
    hide WordAnd, WordOr, WordXor, ShiftLeft, J.BinaryInt, PushConst, Runs, J.Step;
    var f := ShiftLeft(mask, b);
    var x := WordXor(f, 0xFFFF_FFFF);
    var below := I(b, I(i, s));
    var s0, s1, s2 := Stk(j, I(b, I(mask, I(w, I(i, s))))), Stk(j, I(b, I(mask, I(w, below)))), Stk(j, I(f, I(w, below)));
    var s3, s4 := Stk(j, I(x, I(w, below))), Stk(j, I(WordAnd(w, x), below));
    DupX2Runs(j, b, mask, w, I(i, s));
    IntMeanings(mask, b);
    OpRuns(J.Ishl, j, mask, b, I(w, below));
    IntMeanings(f, 0xFFFF_FFFF);
    ConstIntRuns(J.Ixor, j, f, -1, I(w, below));
    IntMeanings(w, x);
    OpRuns(J.Iand, j, w, x, below);
    Then([J.DupX2], [J.Ishl], s0, s1, s2);
    Then([J.DupX2] + [J.Ishl], [PushConst(-1), J.Ixor], s0, s2, s3);
    Then([J.DupX2] + [J.Ishl] + [PushConst(-1), J.Ixor], [J.Iand], s0, s3, s4);
    assert [J.DupX2, J.Ishl, PushConst(-1), J.Ixor, J.Iand] == [J.DupX2] + [J.Ishl] + [PushConst(-1), J.Ixor] + [J.Iand];
  }

  /** Shifting the new value into place and or-ing it in. */
  lemma MergeRuns(c: Context, saved: set<nat>, m: State, j: J.State, rt: Field, mask: int, x: Word, b: Word, s: J.Stack)
    requires ValidContext(c) && Related(c, saved, m, j) && Readable(c, rt) && mask in {0xFF, 0xFFFF} && b < 32
    ensures Runs([J.Swap, PushRegister(c, rt), PushConst(mask), J.Iand, J.Swap, J.Ishl, J.Ior], Stk(j, I(x, I(b, s))),
                 Stk(j, I(WordOr(x, ShiftLeft(WordAnd(m.Reg(rt), mask), b)), s)))
  {
    hide Related, WordAnd, WordOr, WordXor, ShiftLeft, J.BinaryInt, PushConst, PushRegister, Runs, J.Step;
    var below := I(b, I(x, s));
    var v := WordAnd(m.Reg(rt), mask);
    var f := ShiftLeft(v, b);
    var s0, s1, s2, s3 := Stk(j, I(x, I(b, s))), Stk(j, below), Stk(j, I(v, below)), Stk(j, I(b, I(v, I(x, s))));
    var s4, s5 := Stk(j, I(f, I(x, s))), Stk(j, I(WordOr(x, f), s));
    SwapRuns(j, x, b, s);
    IntMeanings(m.Reg(rt), mask);
    RegisterConstRuns(c, saved, m, j, rt, mask, J.Iand, below);
    SwapRuns(j, v, b, I(x, s));
    IntMeanings(v, b);
    OpRuns(J.Ishl, j, v, b, I(x, s));
    IntMeanings(x, f);
    OpRuns(J.Ior, j, x, f, s);
    var c1 := [J.Swap] + [PushRegister(c, rt), PushConst(mask), J.Iand];
    Then([J.Swap], [PushRegister(c, rt), PushConst(mask), J.Iand], s0, s1, s2);
    Then(c1, [J.Swap], s0, s2, s3);
    Then(c1 + [J.Swap], [J.Ishl], s0, s3, s4);
    Then(c1 + [J.Swap] + [J.Ishl], [J.Ior], s0, s4, s5);
    assert [J.Swap, PushRegister(c, rt), PushConst(mask), J.Iand, J.Swap, J.Ishl, J.Ior] ==
           c1 + [J.Swap] + [J.Ishl] + [J.Ior];
  }

  /** The word an inlined sb or sh writes back. */
  function Merged(op: StoreOp, w: Word, v: Word, e: Word): Word {
    var mask := StoreMask(op);
    var b := CRunTime.BitPosition(if op == Sh then 2 else 3, e);
    WordOr(WordAnd(w, WordXor(ShiftLeft(mask, b), 0xFFFF_FFFF)), ShiftLeft(WordAnd(v, mask), b))
  }

  lemma InlineStoreRuns(c: Context, saved: set<nat>, m: State, j: J.State, op: StoreOp, rs: Field, rt: Field, offset: Immediate, s: J.Stack)
    requires ValidContext(c) && Related(c, saved, m, j) && Readable(c, rs) && Readable(c, rt) && c.Allocated(R_MEM)
    requires op in {Sb, Sh} && CRunTime.BitPosition(if op == Sh then 2 else 3, m.Address(rs, offset)) < 32
    requires Index(m.Reg(rs), offset) == m.Address(rs, offset) / 4 && m.Address(rs, offset) < |m.mem|
    ensures m.Address(rs, offset) / 4 < |j.memory|
    ensures var i := m.Address(rs, offset) / 4;
            Runs(InlineStore(c, op, rs, rt, offset), Stk(j, s),
                 Stk(j, s).(memory := j.memory[i := Merged(op, j.memory[i], m.Reg(rt), m.Address(rs, offset))]))
  {
    var e := m.Address(rs, offset);
    var i, mask, last := e / 4, StoreMask(op), if op == Sh then 2 else 3;
    var b := CRunTime.BitPosition(last, e);
    assert |m.mem| == 4 * |j.memory|;
    hide Related, WordAnd, WordOr, WordXor, ShiftLeft, CRunTime.BitPosition, Index, Runs, BitShift, PushIndex,
         PushRegister, PushConst, J.Step;
    var w := j.memory[i];
    var x := WordAnd(w, WordXor(ShiftLeft(mask, b), 0xFFFF_FFFF));
    var v := WordOr(x, ShiftLeft(WordAnd(m.Reg(rt), mask), b));
    assert Merged(op, w, m.Reg(rt), e) == v;
    var below := I(i, J.On(J.MemoryRef, s));
    var s0, s1, s2 := Stk(j, s), Stk(j, I(mask, I(w, below))), Stk(j, I(b, I(mask, I(w, below))));
    var s3, s4, end := Stk(j, I(x, I(b, below))), Stk(j, I(v, below)), Stk(j, s).(memory := j.memory[i := v]);
    FetchRuns(c, saved, m, j, rs, offset, mask, s);
    BitShiftRuns(c, saved, m, j, last, rs, offset, I(mask, I(w, below)));
    ClearRuns(j, b, mask, w, i, J.On(J.MemoryRef, s));
    MergeRuns(c, saved, m, j, rt, mask, x, b, below);
    WriteBackRuns(j, v, i, s);
    hide Merged;
    ComposeStore(c, op, rs, rt, offset, s0, s1, s2, s3, s4, end);
  }

  lemma WriteBackRuns(j: J.State, v: Word, i: Word, s: J.Stack)
    requires i < |j.memory|
    ensures Runs([J.Iastore], Stk(j, I(v, I(i, J.On(J.MemoryRef, s)))), Stk(j, s).(memory := j.memory[i := v]))
  {
    Run1(J.Iastore, Stk(j, I(v, I(i, J.On(J.MemoryRef, s)))), Stk(j, s).(memory := j.memory[i := v]));
  }

  lemma ComposeStore(c: Context, op: StoreOp, rs: Field, rt: Field, offset: Immediate,
                     s0: J.State, s1: J.State, s2: J.State, s3: J.State, s4: J.State, end: J.State)
    requires Runs([PushRegister(c, R_MEM)] + PushIndex(c, rs, offset) + [J.Dup2, J.Iaload, PushConst(StoreMask(op))], s0, s1)
    requires Runs(BitShift(c, if op == Sh then 2 else 3, rs, offset), s1, s2)
    requires Runs([J.DupX2, J.Ishl, PushConst(-1), J.Ixor, J.Iand], s2, s3)
    requires Runs([J.Swap, PushRegister(c, rt), PushConst(StoreMask(op)), J.Iand, J.Swap, J.Ishl, J.Ior], s3, s4)
    requires Runs([J.Iastore], s4, end)
    ensures Runs(InlineStore(c, op, rs, rt, offset), s0, end)
  {
    hide Runs, BitShift, PushIndex, PushRegister, PushConst, StoreMask;
    var c1 := [PushRegister(c, R_MEM)] + PushIndex(c, rs, offset) + [J.Dup2, J.Iaload, PushConst(StoreMask(op))];
    var c2 := BitShift(c, if op == Sh then 2 else 3, rs, offset);
    var c3 := [J.DupX2, J.Ishl, PushConst(-1), J.Ixor, J.Iand];
    var c4 := [J.Swap, PushRegister(c, rt), PushConst(StoreMask(op)), J.Iand, J.Swap, J.Ishl, J.Ior];
    Then(c1, c2, s0, s1, s2);
    Then(c1 + c2, c3, s0, s2, s3);
    Then(c4, [J.Iastore], s3, s4, end);
    Then(c1 + c2 + c3, c4 + [J.Iastore], s0, s3, end);
    assert c4 + [J.Iastore] ==
           [J.Swap, PushRegister(c, rt), PushConst(StoreMask(op)), J.Iand, J.Swap, J.Ishl, J.Ior, J.Iastore];
  }

  /** The word, under it the array and index for writing back, and the mask. */
  lemma FetchRuns(c: Context, saved: set<nat>, m: State, j: J.State, rs: Field, offset: Immediate, mask: int, s: J.Stack)
    requires ValidContext(c) && Related(c, saved, m, j) && Readable(c, rs) && c.Allocated(R_MEM) && mask in {0xFF, 0xFFFF}
    requires Index(m.Reg(rs), offset) == m.Address(rs, offset) / 4 && m.Address(rs, offset) < |m.mem|
    ensures m.Address(rs, offset) / 4 < |j.memory|
    ensures var i := m.Address(rs, offset) / 4;
            Runs([PushRegister(c, R_MEM)] + PushIndex(c, rs, offset) + [J.Dup2, J.Iaload, PushConst(mask)], Stk(j, s),
                 Stk(j, I(mask, I(j.memory[i], I(i, J.On(J.MemoryRef, s))))))
  {
    var i := m.Address(rs, offset) / 4;
    assert |m.mem| == 4 * |j.memory|;
    hide Related, PushRegister, Index, PushIndex;
    var s1, s2 := Stk(j, J.On(J.MemoryRef, s)), Stk(j, I(i, J.On(J.MemoryRef, s)));
    var s5 := Stk(j, I(mask, I(j.memory[i], I(i, J.On(J.MemoryRef, s)))));
    MemoryPushes(c, saved, m, j, s);
    IndexRuns(c, saved, m, j, rs, offset, J.On(J.MemoryRef, s));
    Run1(PushRegister(c, R_MEM), Stk(j, s), s1);
    PeekRuns(j, i, mask, s);
    hide Runs;
    Then([PushRegister(c, R_MEM)], PushIndex(c, rs, offset), Stk(j, s), s1, s2);
    Then([PushRegister(c, R_MEM)] + PushIndex(c, rs, offset), [J.Dup2, J.Iaload, PushConst(mask)], Stk(j, s), s2, s5);
  }

  lemma PeekRuns(j: J.State, i: Word, mask: int, s: J.Stack)
    requires i < |j.memory| && mask in {0xFF, 0xFFFF}
    ensures Runs([J.Dup2, J.Iaload, PushConst(mask)], Stk(j, I(i, J.On(J.MemoryRef, s))),
                 Stk(j, I(mask, I(j.memory[i], I(i, J.On(J.MemoryRef, s))))))
  {
    var w, below := j.memory[i], I(i, J.On(J.MemoryRef, s));
    ConstPushes(mask, j, I(w, below));
    PeekSteps(j, i, s);
    hide PushConst, J.Step;
    Run3(J.Dup2, J.Iaload, PushConst(mask), Stk(j, below), Stk(j, I(i, J.On(J.MemoryRef, below))), Stk(j, I(w, below)),
         Stk(j, I(mask, I(w, below))));
  }

  lemma PeekSteps(j: J.State, i: Word, s: J.Stack)
    requires i < |j.memory|
    ensures var below := I(i, J.On(J.MemoryRef, s));
            J.Step(J.Dup2, Stk(j, below)) == Some(Stk(j, I(i, J.On(J.MemoryRef, below)))) &&
            J.Step(J.Iaload, Stk(j, I(i, J.On(J.MemoryRef, below)))) == Some(Stk(j, I(j.memory[i], below)))
  {}
}
