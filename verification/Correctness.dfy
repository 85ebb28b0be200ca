/** The translator's instruction-level theorem and its lift to straight-line lists of instructions. */
module Correctness {
  import opened Words
  import opened Options
  import opened BigEndian
  import opened Mips
  import J = Jvm
  import opened Translation
  import opened StraightLine
  import CRunTime

  // ----- what is translated faithfully -----

  /** The encodings that emit nothing: the three-register and the shift form of a nop. */
  predicate IsNop(insn: Insn) {
    match insn
    case Nop => true
    case Alu(op, rs, rt, rd) => op == Addu && rs == 0 && rt == 0 && rd == 0
    case Shift(_, rt, rd, amount) => rt == 0 && amount == 0 && rd == 0
    case _ => false
  }

  /** A result for `$zero`, which has no local. */
  predicate WritesZero(insn: Insn) {
    !IsNop(insn) &&
    match insn
    case Alu(_, _, _, rd) => rd == 0
    case Shift(_, _, rd, _) => rd == 0
    case Imm(_, _, rt, _) => rt == 0
    case Lui(rt, _) => rt == 0
    case Load(_, _, rt, _) => rt == 0
    case Mfhi(rd) => rd == 0
    case Mflo(rd) => rd == 0
    case _ => false
  }

  /** Not read: `$ra`, which the Java stack stands for. */
  predicate ReadsSupported(c: Context, insn: Insn) {
    match insn
    case Nop => true
    case Alu(_, rs, rt, _) => rs != R_RA && rt != R_RA
    case Shift(_, rt, _, _) => rt != R_RA
    case Imm(_, rs, _, _) => rs != R_RA
    case Lui(_, _) => true
    case Load(_, rs, _, _) => rs != R_RA
    case Store(_, rs, rt, _) => rs != R_RA && (rt == R_RA ==> SkipsRa(c, insn))
    case MulDiv(_, rs, rt) => rs != R_RA && rt != R_RA
    case Mfhi(_) => c.usingHi
    case Mflo(_) => true
    case _ => false
  }

  predicate Supported(c: Context, insn: Insn) {
    ReadsSupported(c, insn) && !WritesZero(insn)
  }

  /** Every register the usage counters saw has a local. */
  ghost predicate Covers(c: Context, insn: Insn) {
    forall r :: r in Touched(c, insn) ==> c.Allocated(r)
  }

  /** The accesses whose code computes the word index after the shift must not wrap, and a loaded word must
      not be one where a dropped store of `$ra` went. */
  predicate AccessOk(c: Context, insn: Insn, m: State, saved: set<nat>) {
    match insn
    case Load(op, rs, _, offset) =>
      SkipsRa(c, insn) ||
      (m.Address(rs, offset) / 4 !in saved && (op == Lw || c.inlines ==> Unwrapped(m.Reg(rs), offset)))
    case Store(op, rs, _, offset) => SkipsRa(c, insn) || (op == Sw || c.inlines ==> Unwrapped(m.Reg(rs), offset))
    case _ => true
  }

  predicate Unwrapped(base: Word, offset: int) {
    offset % 4 != 0 || 0 <= base + offset < 0x1_0000_0000
  }

  // ----- storing -----

  lemma PartialStoreValue(op: StoreOp, words: seq<Word>, bytes: seq<Byte>, saved: set<nat>, e: Word, v: Word)
    requires op != Sw && Holds(words, bytes, saved) && StoreResult(op, bytes, e, v).Some?
    ensures e / 4 < |words| && CRunTime.BitPosition(if op == Sh then 2 else 3, e) < 32
    ensures Holds(words[e / 4 := Merged(op, words[e / 4], v, e)], StoreResult(op, bytes, e, v).value, saved)
  {
    var i := e / 4;
    var w := words[i];
    if op == Sb {
      MergedByte(w, v, e);
      HoldsAfterByte(words, bytes, saved, e, v % 0x100);
      hide Holds, SetByte, Merged, CRunTime.BitPosition;
    } else {
      EvenPosition(e);
      MergedShort(w, v, e, e % 4);
      HoldsAfterShort(words, bytes, saved, e, e % 4, v);
      hide Holds, SetShort, Merged, CRunTime.BitPosition;
    }
  }

  lemma MergedByte(w: Word, v: Word, e: Word)
    ensures CRunTime.BitPosition(3, e) < 32 && Merged(Sb, w, v, e) == SetByte(w, e % 4, v % 0x100)
  {
    CRunTime.BytePosition(e);
    CRunTime.MaskedByte(w, e % 4, v);
    hide CRunTime.BitPosition, WordAnd, WordOr, WordXor, ShiftLeft, SetByte;
  }

  lemma EvenPosition(e: Word)
    ensures e % 2 == 0 ==> e % 4 in {0, 2} && e / 2 % 2 * 2 == e % 4
  {}

  lemma MergedShort(w: Word, v: Word, e: Word, k: nat)
    requires e % 2 == 0 && k == e % 4 && k in {0, 2}
    ensures CRunTime.BitPosition(2, e) < 32 && Merged(Sh, w, v, e) == SetShort(w, k, v)
  {
    CRunTime.ShortPosition(e);
    CRunTime.MaskedShort(w, k, v);
    hide CRunTime.BitPosition, WordAnd, WordOr, WordXor, ShiftLeft, SetShort;
  }

  /** The runtime's byte and short writes are the inlined ones. */
  lemma RuntimeStoreIsMerged(op: StoreOp, words: CRunTime.Memory, e: Word, v: Word)
    requires op != Sw && e < 4 * |words| && (op == Sh ==> e % 2 == 0)
    ensures J.WriteMemory(if op == Sb then J.WriteByte else J.WriteShort, words, e, v) ==
            Some(words[e / 4 := Merged(op, words[e / 4], v, e)])
  {
    CRunTime.WriteIndexInRange(e);
    hide CRunTime.WriteIndex, SetByte, SetShort;
    if op == Sb {
      MergedByte(words[e / 4], v, e);
    } else {
      EvenPosition(e);
      MergedShort(words[e / 4], v, e, e % 4);
    }
    hide Merged;
  }

  lemma CallStoreRuns(c: Context, saved: set<nat>, m: State, j: J.State, op: StoreOp, rs: Field, rt: Field, offset: Immediate, words: CRunTime.Memory, s: J.Stack)
    requires ValidContext(c) && Related(c, saved, m, j) && Readable(c, rs) && Readable(c, rt) && op != Sw && !c.inlines
    requires J.WriteMemory(if op == Sb then J.WriteByte else J.WriteShort, j.memory, m.Address(rs, offset), m.Reg(rt)) == Some(words)
    ensures Runs(StoreCode(c, op, rs, rt, offset), Stk(j, s), Stk(j, s).(memory := words))
  {
    hide Related, PushAddress, PushRegister, J.WriteMemory;
    var e, v := m.Address(rs, offset), m.Reg(rt);
    AddressRuns(c, saved, m, j, rs, offset, s);
    RegisterPushes(c, saved, m, j, rt, I(e, s));
    InvokeWrite(j, if op == Sb then J.WriteByte else J.WriteShort, e, v, words, s);
    hide J.Step;
    var call := J.Invoke(J.MemoryWrite(if op == Sb then J.WriteByte else J.WriteShort));
    Run2(PushRegister(c, rt), call, Stk(j, I(e, s)), Stk(j, I(v, I(e, s))), Stk(j, s).(memory := words));
    hide Runs;
    Then(PushAddress(c, rs, offset), [PushRegister(c, rt), call], Stk(j, s), Stk(j, I(e, s)), Stk(j, s).(memory := words));
  }

  lemma InvokeWrite(j: J.State, kind: J.WriteKind, e: Word, v: Word, words: CRunTime.Memory, s: J.Stack)
    requires J.WriteMemory(kind, j.memory, e, v) == Some(words)
    ensures J.Step(J.Invoke(J.MemoryWrite(kind)), Stk(j, I(v, I(e, s)))) == Some(Stk(j, s).(memory := words))
  {
    hide J.WriteMemory;
  }

  /** What running the code of one instruction must achieve. */
  ghost predicate Simulates(c: Context, code: seq<J.Bytecode>, j: J.State, m': State, saved': set<nat>) {
    var end := J.Run(code, j);
    end.Some? && end.value.stack == j.stack && Related(c, saved', m', end.value)
  }

  lemma StoreCorrect(c: Context, saved: set<nat>, m: State, j: J.State, op: StoreOp, rs: Field, rt: Field, offset: Immediate, m': State)
    requires var insn := Store(op, rs, rt, offset);
             ValidContext(c) && Related(c, saved, m, j) && Supported(c, insn) && Covers(c, insn) &&
             AccessOk(c, insn, m, saved) && !SkipsRa(c, insn) && Execute(insn, m) == Some(m')
    ensures Simulates(c, StoreCode(c, op, rs, rt, offset), j, m', Apart(c, Store(op, rs, rt, offset), m, saved))
  {
    var e, v := m.Address(rs, offset), m.Reg(rt);
    ReadableField(c, Store(op, rs, rt, offset), rs);
    ReadableField(c, Store(op, rs, rt, offset), rt);
    IndexIsAddressIff(m.Reg(rs), offset);
    assert Holds(j.memory, m.mem, saved) && Stk(j, j.stack) == j;
    hide Touched, StoreCode, Related, Simulates, Holds, Readable, Covers, Index, Merged, CRunTime.BitPosition;
    var words;
    if op == Sw {
      WordStoreRuns(c, saved, m, j, rs, rt, offset, j.stack);
      words := j.memory[e / 4 := v];
      AlignedStoreHolds(j.memory, m.mem, saved, e, v);
    } else {
      PartialStoreValue(op, j.memory, m.mem, saved, e, v);
      words := j.memory[e / 4 := Merged(op, j.memory[e / 4], v, e)];
      if c.inlines {
        InlineStoreRuns(c, saved, m, j, op, rs, rt, offset, j.stack);
        InlineIsStoreCode(c, op, rs, rt, offset);
      } else {
        RuntimeStoreIsMerged(op, j.memory, e, v);
        CallStoreRuns(c, saved, m, j, op, rs, rt, offset, words, j.stack);
      }
    }
    StoreEnds(c, StoreCode(c, op, rs, rt, offset), saved, m, j, words, m'.mem, Apart(c, Store(op, rs, rt, offset), m, saved));
  }

  lemma AlignedStoreHolds(words: seq<Word>, bytes: seq<Byte>, saved: set<nat>, e: Word, v: Word)
    requires Holds(words, bytes, saved) && StoreResult(Sw, bytes, e, v).Some?
    ensures e / 4 < |words| && Holds(words[e / 4 := v], StoreResult(Sw, bytes, e, v).value, saved - {e / 4})
  {
    assert 4 * (e / 4) == e;
    HoldsAfterWord(words, bytes, saved, e / 4, v);
    hide Holds, ByteOf;
  }

  lemma StoreEnds(c: Context, code: seq<J.Bytecode>, saved: set<nat>, m: State, j: J.State, words: CRunTime.Memory, mem': seq<Byte>, saved': set<nat>)
    requires Related(c, saved, m, j) && Runs(code, j, j.(memory := words)) && Holds(words, mem', saved')
    ensures Simulates(c, code, j, m.(mem := mem'), saved')
  {
    hide Holds;
  }

  lemma InlineIsStoreCode(c: Context, op: StoreOp, rs: Field, rt: Field, offset: Immediate)
    requires op != Sw && c.inlines
    ensures StoreCode(c, op, rs, rt, offset) == InlineStore(c, op, rs, rt, offset)
  {
    hide InlineStore;
  }

  /** A register field that is counted and is not `$ra` can be pushed. */
  lemma ReadableField(c: Context, insn: Insn, r: Field)
    requires Covers(c, insn) && (r == 0 || r in Touched(c, insn)) && r != R_RA
    ensures Readable(c, r)
  {
    hide Touched;
  }

  // ----- multiplication and division -----

  lemma HighWord(p: Long)
    ensures Wrap(WrapLong(Drop(p % 0x1_0000_0000_0000_0000, 32))) == Wrap(p / 0x1_0000_0000)
  {
    DropValues(p % 0x1_0000_0000_0000_0000);
    hide Drop;
    HighHalf(p);
  }

  lemma HighHalf(p: Long)
    ensures Wrap(WrapLong(p % 0x1_0000_0000_0000_0000 / 0x1_0000_0000)) == Wrap(p / 0x1_0000_0000)
  {
    if p < 0 {
      assert p % 0x1_0000_0000_0000_0000 == p + 0x1_0000_0000_0000_0000;
    }
  }

  lemma SplitRuns(j: J.State, p: Long, s: J.Stack)
    ensures Runs([J.Dup2, PushConst(32), J.Lushr, J.L2i], Stk(j, L(p, s)), Stk(j, I(Wrap(p / 0x1_0000_0000), L(p, s))))
  {
    var below := L(p, s);
    ConstPushes(32, j, L(p, below));
    Run2(J.Dup2, PushConst(32), Stk(j, below), Stk(j, L(p, below)), Stk(j, I(32, L(p, below))));
    hide PushConst, Runs;
    HighRuns(j, p, below);
    Then([J.Dup2, PushConst(32)], [J.Lushr, J.L2i], Stk(j, below), Stk(j, I(32, L(p, below))), Stk(j, I(Wrap(p / 0x1_0000_0000), below)));
    assert [J.Dup2, PushConst(32), J.Lushr, J.L2i] == [J.Dup2, PushConst(32)] + [J.Lushr, J.L2i];
  }

  lemma NarrowSteps(j: J.State, p: Long, q: Long, s: J.Stack)
    requires q == WrapLong(Drop(p % 0x1_0000_0000_0000_0000, 32))
    ensures J.Step(J.Lushr, Stk(j, I(32, L(p, s)))) == Some(Stk(j, L(q, s)))
    ensures J.Step(J.L2i, Stk(j, L(q, s))) == Some(Stk(j, I(Wrap(q), s)))
  {
    hide Drop, Wrap, WrapLong;
  }

  lemma HighRuns(j: J.State, p: Long, s: J.Stack)
    ensures Runs([J.Lushr, J.L2i], Stk(j, I(32, L(p, s))), Stk(j, I(Wrap(p / 0x1_0000_0000), s)))
  {
    HighWord(p);
    var q := WrapLong(Drop(p % 0x1_0000_0000_0000_0000, 32));
    hide Drop, Wrap, WrapLong;
    NarrowSteps(j, p, q, s);
    hide J.Step;
    Run2(J.Lushr, J.L2i, Stk(j, I(32, L(p, s))), Stk(j, L(q, s)), Stk(j, I(Wrap(p / 0x1_0000_0000), s)));
  }

  lemma LocalInRange(c: Context, saved: set<nat>, m: State, j: J.State, r: Register)
    requires Related(c, saved, m, j) && c.Allocated(r)
    ensures c.ra[r] < |j.locals|
  {}

  /** The long on the stack becomes HI and LO. */
  lemma PopHiLoRuns(c: Context, saved: set<nat>, m: State, j: J.State, p: Long, s: J.Stack)
    requires ValidContext(c) && Related(c, saved, m, j) && c.Allocated(R_HI) && c.Allocated(R_LO)
    ensures var end := J.State(s, j.locals[c.ra[R_HI] := J.Int(Wrap(p / 0x1_0000_0000))][c.ra[R_LO] := J.Int(Wrap(p))], j.memory);
            Runs(PopHiLo(c), Stk(j, L(p, s)), end) &&
            Related(c, saved, m.Set(R_HI, Wrap(p / 0x1_0000_0000)).Set(R_LO, Wrap(p)), end)
  {
    LocalInRange(c, saved, m, j, R_HI);
    LocalInRange(c, saved, m, j, R_LO);
    hide Related, PopRegister, Wrap;
    var hi, lo := Wrap(p / 0x1_0000_0000), Wrap(p);
    SplitRuns(j, p, s);
    RegisterPops(c, saved, m, j, R_HI, hi, L(p, s));
    var j1 := J.State(L(p, s), j.locals[c.ra[R_HI] := J.Int(hi)], j.memory);
    Run1(J.L2i, j1, Stk(j1, I(lo, s)));
    RegisterPops(c, saved, m.Set(R_HI, hi), j1, R_LO, lo, s);
    var end := J.State(s, j1.locals[c.ra[R_LO] := J.Int(lo)], j.memory);
    hide Runs;
    var c1 := [J.Dup2, PushConst(32), J.Lushr, J.L2i];
    Then(c1, PopRegister(c, R_HI), Stk(j, L(p, s)), Stk(j, I(hi, L(p, s))), j1);
    Then(c1 + PopRegister(c, R_HI), [J.L2i], Stk(j, L(p, s)), j1, Stk(j1, I(lo, s)));
    Then(c1 + PopRegister(c, R_HI) + [J.L2i], PopRegister(c, R_LO), Stk(j, L(p, s)), Stk(j1, I(lo, s)), end);
  }

  /** Both operands pushed. */
  lemma OperandsRun(c: Context, saved: set<nat>, m: State, j: J.State, rs: Field, rt: Field, s: J.Stack)
    requires ValidContext(c) && Related(c, saved, m, j) && Readable(c, rs) && Readable(c, rt)
    ensures Runs([PushRegister(c, rs), PushRegister(c, rt)], Stk(j, s), Stk(j, I(m.Reg(rt), I(m.Reg(rs), s))))
  {
    hide Related, PushRegister, J.Step;
    RegisterPushes(c, saved, m, j, rs, s);
    RegisterPushes(c, saved, m, j, rt, I(m.Reg(rs), s));
    Run2(PushRegister(c, rs), PushRegister(c, rt), Stk(j, s), Stk(j, I(m.Reg(rs), s)), Stk(j, I(m.Reg(rt), I(m.Reg(rs), s))));
  }

  /** A long product or quotient pair that lands in HI and LO. */
  lemma LongResult(c: Context, saved: set<nat>, m: State, j: J.State, c1: seq<J.Bytecode>, p: Long, hi: Word, lo: Word)
    requires ValidContext(c) && Related(c, saved, m, j) && c.Allocated(R_HI) && c.Allocated(R_LO)
    requires Runs(c1, j, Stk(j, L(p, j.stack))) && hi == Wrap(p / 0x1_0000_0000) && lo == Wrap(p)
    ensures Simulates(c, c1 + PopHiLo(c), j, m.Set(R_HI, hi).Set(R_LO, lo), saved)
  {
    PopHiLoRuns(c, saved, m, j, p, j.stack);
    var end := J.State(j.stack, j.locals[c.ra[R_HI] := J.Int(hi)][c.ra[R_LO] := J.Int(lo)], j.memory);
    hide Related, PopHiLo;
    Then(c1, PopHiLo(c), j, Stk(j, L(p, j.stack)), end);
  }

  /** An int left on the stack that lands in a register. */
  lemma IntResult(c: Context, saved: set<nat>, m: State, j: J.State, c1: seq<J.Bytecode>, r: Register, v: Word)
    requires ValidContext(c) && Related(c, saved, m, j) && 1 <= r < 34 && c.Allocated(r)
    requires Runs(c1, j, Stk(j, I(v, j.stack)))
    ensures Simulates(c, c1 + PopRegister(c, r), j, m.Set(r, v), saved)
  {
    LocalInRange(c, saved, m, j, r);
    RegisterPops(c, saved, m, j, r, v, j.stack);
    var end := J.State(j.stack, j.locals[c.ra[r] := J.Int(v)], j.memory);
    hide Related, PopRegister;
    Then(c1, PopRegister(c, r), j, Stk(j, I(v, j.stack)), end);
  }

  /** A register the locals do not carry may change on the MIPS side alone. */
  lemma InvisibleSet(c: Context, saved: set<nat>, m: State, j: J.State, r: nat, v: Word)
    requires Related(c, saved, m, j) && r < 34 && !Visible(c, r)
    ensures Related(c, saved, m.Set(r, v), j)
  {}

  lemma LoOnly(c: Context, saved: set<nat>, m: State, j: J.State, rs: Field, rt: Field, b: J.Bytecode, hi: Word)
    requires ValidContext(c) && Related(c, saved, m, j) && Readable(c, rs) && Readable(c, rt) && c.Allocated(R_LO)
    requires !c.usingHi && IsIntOp(b) && J.BinaryInt(b, m.Reg(rs), m.Reg(rt)).Some?
    ensures Simulates(c, [PushRegister(c, rs), PushRegister(c, rt), b] + PopRegister(c, R_LO), j,
                      m.Set(R_HI, hi).Set(R_LO, J.BinaryInt(b, m.Reg(rs), m.Reg(rt)).value), saved)
  {
    InvisibleSet(c, saved, m, j, R_HI, hi);
    hide Related, PopRegister, PushRegister, J.BinaryInt, Simulates;
    assert Stk(j, j.stack) == j;
    BinaryRuns(c, saved, m, j, rs, rt, b, j.stack);
    IntResult(c, saved, m.Set(R_HI, hi), j, [PushRegister(c, rs), PushRegister(c, rt), b], R_LO,
              J.BinaryInt(b, m.Reg(rs), m.Reg(rt)).value);
  }

  lemma MultHiLo(c: Context, saved: set<nat>, m: State, j: J.State, rs: Field, rt: Field)
    requires ValidContext(c) && Related(c, saved, m, j) && Readable(c, rs) && Readable(c, rt)
    requires c.Allocated(R_HI) && c.Allocated(R_LO)
    ensures var p := Signed(m.Reg(rs)) * Signed(m.Reg(rt));
            Simulates(c, [PushRegister(c, rs), J.I2l, PushRegister(c, rt), J.I2l, J.Lmul] + PopHiLo(c), j,
                      m.Set(R_HI, Wrap(p / 0x1_0000_0000)).Set(R_LO, Wrap(p)), saved)
  {
    var s := j.stack;
    assert Stk(j, s) == j;
    hide Related, PushRegister, Simulates;
    var a, b := Signed(m.Reg(rs)), Signed(m.Reg(rt));
    var p := a * b;
    CRunTime.WrapLongParts(p);
    SignedLongRuns(c, saved, m, j, rs, s);
    SignedLongRuns(c, saved, m, j, rt, L(a, s));
    MultiplyRuns(j, a, b, p, s);
    hide Runs, Signed, Wrap, WrapLong;
    var c1, c2 := [PushRegister(c, rs), J.I2l], [PushRegister(c, rt), J.I2l];
    Then(c1, c2, j, Stk(j, L(a, s)), Stk(j, L(b, L(a, s))));
    Then(c1 + c2, [J.Lmul], j, Stk(j, L(b, L(a, s))), Stk(j, L(WrapLong(p), s)));
    LongResult(c, saved, m, j, c1 + c2 + [J.Lmul], WrapLong(p), Wrap(p / 0x1_0000_0000), Wrap(p));
    assert [PushRegister(c, rs), J.I2l, PushRegister(c, rt), J.I2l, J.Lmul] == c1 + c2 + [J.Lmul];
  }

  lemma MultiplyRuns(j: J.State, a: Long, b: Long, p: int, s: J.Stack)
    requires p == a * b
    ensures Runs([J.Lmul], Stk(j, L(b, L(a, s))), Stk(j, L(WrapLong(p), s)))
  {
    hide WrapLong;
    Run1(J.Lmul, Stk(j, L(b, L(a, s))), Stk(j, L(WrapLong(p), s)));
  }

  lemma InvokeRuns(j: J.State, call: J.RuntimeCall, a: Word, b: Word, p: Long, s: J.Stack)
    requires call in {J.CallMultu, J.CallDivu}
    requires if call == J.CallMultu then p == CRunTime.Multu(a, b) else CRunTime.Divu(a, b) == Some(p)
    ensures Runs([J.Invoke(call)], Stk(j, I(b, I(a, s))), Stk(j, L(p, s)))
  {
    hide CRunTime.Divu, CRunTime.Multu;
    Run1(J.Invoke(call), Stk(j, I(b, I(a, s))), Stk(j, L(p, s)));
  }

  /** multu and divu call the runtime. */
  lemma UnsignedHiLo(c: Context, saved: set<nat>, m: State, j: J.State, rs: Field, rt: Field, call: J.RuntimeCall, p: Long, hi: Word, lo: Word)
    requires ValidContext(c) && Related(c, saved, m, j) && Readable(c, rs) && Readable(c, rt)
    requires c.Allocated(R_HI) && c.Allocated(R_LO)
    requires call in {J.CallMultu, J.CallDivu}
    requires if call == J.CallMultu then p == CRunTime.Multu(m.Reg(rs), m.Reg(rt)) else CRunTime.Divu(m.Reg(rs), m.Reg(rt)) == Some(p)
    requires hi == Wrap(p / 0x1_0000_0000) && lo == Wrap(p)
    ensures Simulates(c, [PushRegister(c, rs), PushRegister(c, rt), J.Invoke(call)] + PopHiLo(c), j, m.Set(R_HI, hi).Set(R_LO, lo), saved)
  {
    var s := j.stack;
    assert Stk(j, s) == j;
    hide Related, PushRegister, CRunTime.Divu, CRunTime.Multu, Simulates, Runs, Wrap;
    var below := I(m.Reg(rt), I(m.Reg(rs), s));
    OperandsRun(c, saved, m, j, rs, rt, s);
    InvokeRuns(j, call, m.Reg(rs), m.Reg(rt), p, s);
    Then([PushRegister(c, rs), PushRegister(c, rt)], [J.Invoke(call)], j, Stk(j, below), Stk(j, L(p, s)));
    LongResult(c, saved, m, j, [PushRegister(c, rs), PushRegister(c, rt)] + [J.Invoke(call)], p, hi, lo);
    assert [PushRegister(c, rs), PushRegister(c, rt), J.Invoke(call)] == [PushRegister(c, rs), PushRegister(c, rt)] + [J.Invoke(call)];
  }

  /** div in a method that uses HI: the operands are duplicated, one pair for each result. */
  lemma DivHiLo(c: Context, saved: set<nat>, m: State, j: J.State, rs: Field, rt: Field)
    requires ValidContext(c) && Related(c, saved, m, j) && Readable(c, rs) && Readable(c, rt)
    requires c.Allocated(R_HI) && c.Allocated(R_LO) && m.Reg(rt) != 0
    ensures var a, b := Signed(m.Reg(rs)), Signed(m.Reg(rt));
            Simulates(c, [PushRegister(c, rs), PushRegister(c, rt), J.Dup2, J.Idiv] + PopRegister(c, R_LO) + [J.Irem] + PopRegister(c, R_HI),
                      j, m.Set(R_HI, Wrap(TruncMod(a, b))).Set(R_LO, Wrap(TruncDiv(a, b))), saved)
  {
    var s := j.stack;
    assert Stk(j, s) == j;
    LocalInRange(c, saved, m, j, R_LO);
    hide Related, PushRegister, PopRegister;
    var x, y := m.Reg(rs), m.Reg(rt);
    var q, r := Wrap(TruncDiv(Signed(x), Signed(y))), Wrap(TruncMod(Signed(x), Signed(y)));
    var pair := I(y, I(x, s));
    OperandsRun(c, saved, m, j, rs, rt, s);
    DivideRuns(j, x, y, s);
    hide Wrap, TruncDiv, TruncMod, Signed;
    RegisterPops(c, saved, m, j, R_LO, q, pair);
    var j1 := J.State(pair, j.locals[c.ra[R_LO] := J.Int(q)], j.memory);
    RemainderRuns(j1, x, y, s);
    hide Runs, Simulates;
    var c1 := [PushRegister(c, rs), PushRegister(c, rt)];
    Then(c1, [J.Dup2, J.Idiv], j, Stk(j, pair), Stk(j, I(q, pair)));
    Then(c1 + [J.Dup2, J.Idiv], PopRegister(c, R_LO), j, Stk(j, I(q, pair)), j1);
    var c2 := c1 + [J.Dup2, J.Idiv] + PopRegister(c, R_LO);
    Then(c2, [J.Irem], j, j1, Stk(j1, I(r, s)));
    FinishDiv(c, saved, m.Set(R_LO, q), j, c2 + [J.Irem], j1, r);
    assert m.Set(R_LO, q).Set(R_HI, r) == m.Set(R_HI, r).Set(R_LO, q);
    assert [PushRegister(c, rs), PushRegister(c, rt), J.Dup2, J.Idiv] == c1 + [J.Dup2, J.Idiv];
  }

  lemma FinishDiv(c: Context, saved: set<nat>, m1: State, j: J.State, c1: seq<J.Bytecode>, j1: J.State, r: Word)
    requires ValidContext(c) && Related(c, saved, m1, j1) && c.Allocated(R_HI)
    requires Runs(c1, j, Stk(j1, I(r, j.stack)))
    ensures Simulates(c, c1 + PopRegister(c, R_HI), j, m1.Set(R_HI, r), saved)
  {
    LocalInRange(c, saved, m1, j1, R_HI);
    RegisterPops(c, saved, m1, j1, R_HI, r, j.stack);
    hide Related, PopRegister;
    Then(c1, PopRegister(c, R_HI), j, Stk(j1, I(r, j.stack)), J.State(j.stack, j1.locals[c.ra[R_HI] := J.Int(r)], j1.memory));
  }

  lemma DivideRuns(j: J.State, x: Word, y: Word, s: J.Stack)
    requires y != 0
    ensures Signed(y) != 0
    ensures Runs([J.Dup2, J.Idiv], Stk(j, I(y, I(x, s))), Stk(j, I(Wrap(TruncDiv(Signed(x), Signed(y))), I(y, I(x, s)))))
  {
    hide TruncDiv;
    var pair := I(y, I(x, s));
    IntStep(J.Idiv, j, x, y, pair);
    Run2(J.Dup2, J.Idiv, Stk(j, pair), Stk(j, I(y, I(x, pair))), Stk(j, I(Wrap(TruncDiv(Signed(x), Signed(y))), pair)));
  }

  lemma RemainderRuns(j: J.State, x: Word, y: Word, s: J.Stack)
    requires y != 0
    ensures Runs([J.Irem], Stk(j, I(y, I(x, s))), Stk(j, I(Wrap(TruncMod(Signed(x), Signed(y))), s)))
  {
    hide TruncMod;
    OpRuns(J.Irem, j, x, y, s);
  }

  lemma MulDivCorrect(c: Context, saved: set<nat>, m: State, j: J.State, op: MulDivOp, rs: Field, rt: Field, m': State)
    requires var insn := MulDiv(op, rs, rt);
             ValidContext(c) && Related(c, saved, m, j) && Supported(c, insn) && Covers(c, insn) && Execute(insn, m) == Some(m')
    ensures Simulates(c, MulDivCode(c, op, rs, rt), j, m', saved)
  {
    ReadableField(c, MulDiv(op, rs, rt), rs);
    ReadableField(c, MulDiv(op, rs, rt), rt);
    assert c.Allocated(R_LO) && (c.usingHi || op in {Multu, Divu} ==> c.Allocated(R_HI));
    hide Related, Simulates, Readable, Covers, PushRegister, PopRegister, PopHiLo;
    match op
    case Mult =>
      if c.usingHi {
        MultHiLo(c, saved, m, j, rs, rt);
      } else {
        LoOnly(c, saved, m, j, rs, rt, J.Imul, Wrap(Signed(m.Reg(rs)) * Signed(m.Reg(rt)) / 0x1_0000_0000));
      }
    case Div =>
      if c.usingHi {
        DivHiLo(c, saved, m, j, rs, rt);
      } else {
        LoOnly(c, saved, m, j, rs, rt, J.Idiv, Wrap(TruncMod(Signed(m.Reg(rs)), Signed(m.Reg(rt)))));
      }
    case Multu =>
      var p := CRunTime.Multu(m.Reg(rs), m.Reg(rt));
      UnsignedHiLo(c, saved, m, j, rs, rt, J.CallMultu, p, Wrap(p / 0x1_0000_0000), Wrap(p));
    case Divu =>
      var p := CRunTime.Divu(m.Reg(rs), m.Reg(rt)).value;
      UnsignedHiLo(c, saved, m, j, rs, rt, J.CallDivu, p, m.Reg(rs) % m.Reg(rt), m.Reg(rs) / m.Reg(rt));
  }

  // ----- the instruction theorem -----

  /** Every supported instruction is translated faithfully: whenever the architecture gives it a result, its
      code runs without an exception, leaves the operand stack unchanged and keeps the machines related. */
  lemma InsnCorrect(c: Context, saved: set<nat>, m: State, j: J.State, insn: Insn, m': State)
    requires ValidContext(c) && Related(c, saved, m, j)
    requires Encodable(insn) && Supported(c, insn) && Covers(c, insn) && AccessOk(c, insn, m, saved)
    requires Execute(insn, m) == Some(m')
    ensures Simulates(c, Code(c, insn), j, m', Apart(c, insn, m, saved))
  {
    assert Stk(j, j.stack) == j;
    match insn
    case Nop => EmptyCorrect(c, saved, m, j);
    case Alu(op, rs, rt, rd) =>
      if op == Addu && rs == 0 && rt == 0 && rd == 0 {
        EmptyCorrect(c, saved, m, j);
      } else {
        AluCorrect(c, saved, m, j, op, rs, rt, rd, m');
      }
    case Shift(op, rt, rd, amount) =>
      if rt == 0 && amount == 0 && rd == 0 {
        EmptyCorrect(c, saved, m, j);
      } else {
        ShiftCorrect(c, saved, m, j, op, rt, rd, amount, m');
      }
    case Imm(op, rs, rt, imm) => ImmCorrect(c, saved, m, j, op, rs, rt, imm, m');
    case Lui(rt, high) => LuiCorrect(c, saved, m, j, rt, high);
    case Load(op, rs, rt, offset) => LoadCorrect(c, saved, m, j, op, rs, rt, offset, m');
    case Store(op, rs, rt, offset) =>
      if SkipsRa(c, insn) {
        SkippedStore(c, saved, m, j, op, rs, rt, offset, m');
      } else {
        StoreCorrect(c, saved, m, j, op, rs, rt, offset, m');
      }
    case MulDiv(op, rs, rt) => MulDivCorrect(c, saved, m, j, op, rs, rt, m');
    case Mfhi(rd) => MoveCorrect(c, saved, m, j, R_HI, rd);
    case Mflo(rd) => MoveCorrect(c, saved, m, j, R_LO, rd);
  }

  lemma EmptyCorrect(c: Context, saved: set<nat>, m: State, j: J.State)
    requires Related(c, saved, m, j)
    ensures Simulates(c, [], j, m, saved)
  {}

  lemma AluCorrect(c: Context, saved: set<nat>, m: State, j: J.State, op: AluOp, rs: Field, rt: Field, rd: Field, m': State)
    requires var insn := Alu(op, rs, rt, rd);
             ValidContext(c) && Related(c, saved, m, j) && Supported(c, insn) && Covers(c, insn) && Execute(insn, m) == Some(m')
    requires rd != 0
    ensures Simulates(c, AluCode(c, op, rs, rt) + PopRegister(c, rd), j, m', saved)
  {
    ReadableField(c, Alu(op, rs, rt, rd), rs);
    ReadableField(c, Alu(op, rs, rt, rd), rt);
    assert Stk(j, j.stack) == j && c.Allocated(rd);
    hide Related, Simulates, Readable, Covers, PopRegister, AluCode, AluResult;
    AluRuns(c, saved, m, j, op, rs, rt, j.stack);
    IntResult(c, saved, m, j, AluCode(c, op, rs, rt), rd, AluResult(op, m.Reg(rs), m.Reg(rt)).value);
  }

  lemma ShiftCorrect(c: Context, saved: set<nat>, m: State, j: J.State, op: ShiftOp, rt: Field, rd: Field, amount: nat, m': State)
    requires var insn := Shift(op, rt, rd, amount);
             ValidContext(c) && Related(c, saved, m, j) && Supported(c, insn) && Covers(c, insn) && Execute(insn, m) == Some(m')
    requires rd != 0 && amount < 32
    ensures Simulates(c, [PushRegister(c, rt), PushConst(amount), ShiftOpcode(op)] + PopRegister(c, rd), j, m', saved)
  {
    ReadableField(c, Shift(op, rt, rd, amount), rt);
    assert Stk(j, j.stack) == j && c.Allocated(rd);
    hide Related, Simulates, Readable, Covers, PopRegister, PushRegister, PushConst, ShiftResult;
    ShiftRuns(c, saved, m, j, op, rt, amount, j.stack);
    IntResult(c, saved, m, j, [PushRegister(c, rt), PushConst(amount), ShiftOpcode(op)], rd, ShiftResult(op, m.Reg(rt), amount));
  }

  lemma ImmCorrect(c: Context, saved: set<nat>, m: State, j: J.State, op: ImmOp, rs: Field, rt: Field, imm: Immediate, m': State)
    requires var insn := Imm(op, rs, rt, imm);
             ValidContext(c) && Related(c, saved, m, j) && Encodable(insn) && Supported(c, insn) && Covers(c, insn) &&
             Execute(insn, m) == Some(m')
    ensures Simulates(c, Code(c, Imm(op, rs, rt, imm)), j, m', saved)
  {
    assert Stk(j, j.stack) == j && c.Allocated(rt);
    if op in {Addi, Addiu} && rs != R_ZERO && rt == rs {
      IncrementCorrect(c, saved, m, j, rt, imm);
    } else {
      ReadableField(c, Imm(op, rs, rt, imm), rs);
      hide Related, Simulates, Readable, Covers, PopRegister, ImmCode, ImmResult;
      ImmRuns(c, saved, m, j, op, rs, imm, j.stack);
      IntResult(c, saved, m, j, ImmCode(c, op, rs, imm), rt, ImmResult(op, m.Reg(rs), imm).value);
    }
  }

  /** `iinc` on a register that is both source and destination. */
  lemma IncrementCorrect(c: Context, saved: set<nat>, m: State, j: J.State, r: Field, imm: Immediate)
    requires ValidContext(c) && Related(c, saved, m, j) && r != 0 && r != R_RA && c.Allocated(r)
    ensures Simulates(c, [J.Iinc(c.ra[r], imm)], j, m.Set(r, Wrap(m.Reg(r) + imm)), saved)
  {
    hide Holds;
    var end := j.(locals := j.locals[c.ra[r] := J.Int(Wrap(m.Reg(r) + imm))]);
    Run1(J.Iinc(c.ra[r], imm), j, end);
    hide J.Run;
  }

  lemma LuiCorrect(c: Context, saved: set<nat>, m: State, j: J.State, rt: Field, high: nat)
    requires ValidContext(c) && Related(c, saved, m, j) && rt != 0 && c.Allocated(rt)
    ensures Simulates(c, [PushUnsigned(Wrap(high * 0x1_0000))] + PopRegister(c, rt), j, m.Set(rt, Wrap(high * 0x1_0000)), saved)
  {
    var v := Wrap(high * 0x1_0000);
    assert Stk(j, j.stack) == j;
    UnsignedPushes(v, j, j.stack);
    Run1(PushUnsigned(v), j, Stk(j, I(v, j.stack)));
    hide Related, Simulates, PopRegister, PushUnsigned, Wrap;
    IntResult(c, saved, m, j, [PushUnsigned(v)], rt, v);
  }

  lemma MoveCorrect(c: Context, saved: set<nat>, m: State, j: J.State, r: Register, rd: Field)
    requires ValidContext(c) && Related(c, saved, m, j) && 1 <= r < 34 && Readable(c, r) && rd != 0 && c.Allocated(rd)
    ensures Simulates(c, [PushRegister(c, r)] + PopRegister(c, rd), j, m.Set(rd, m.Reg(r)), saved)
  {
    assert Stk(j, j.stack) == j;
    hide Related, Simulates, PopRegister, PushRegister;
    PushRuns(c, saved, m, j, r, j.stack);
    IntResult(c, saved, m, j, [PushRegister(c, r)], rd, m.Reg(r));
  }

  lemma LoadCorrect(c: Context, saved: set<nat>, m: State, j: J.State, op: LoadOp, rs: Field, rt: Field, offset: Immediate, m': State)
    requires var insn := Load(op, rs, rt, offset);
             ValidContext(c) && Related(c, saved, m, j) && Supported(c, insn) && Covers(c, insn) &&
             AccessOk(c, insn, m, saved) && Execute(insn, m) == Some(m')
    ensures Simulates(c, Code(c, Load(op, rs, rt, offset)), j, m', saved)
  {
    var insn := Load(op, rs, rt, offset);
    if SkipsRa(c, insn) {
      InvisibleSet(c, saved, m, j, rt, LoadResult(op, m.mem, m.Address(rs, offset)).value);
      EmptyCorrect(c, saved, m', j);
    } else {
      ReadableField(c, insn, rs);
      IndexIsAddressIff(m.Reg(rs), offset);
      assert Stk(j, j.stack) == j && c.Allocated(rt) && c.Allocated(R_MEM);
      hide Related, Simulates, Readable, Covers, PopRegister, LoadCode, LoadResult, Index;
      LoadRuns(c, saved, m, j, op, rs, offset, j.stack);
      IntResult(c, saved, m, j, LoadCode(c, op, rs, offset), rt, LoadResult(op, m.mem, m.Address(rs, offset)).value);
    }
  }

  /** A dropped store of `$ra` only sets its word apart. */
  lemma SkippedStore(c: Context, saved: set<nat>, m: State, j: J.State, op: StoreOp, rs: Field, rt: Field, offset: Immediate, m': State)
    requires var insn := Store(op, rs, rt, offset);
             Related(c, saved, m, j) && SkipsRa(c, insn) && Execute(insn, m) == Some(m')
    ensures Simulates(c, Code(c, Store(op, rs, rt, offset)), j, m', Apart(c, Store(op, rs, rt, offset), m, saved))
  {
    SetApart(j.memory, m.mem, m'.mem, saved, op, m.Address(rs, offset), m.Reg(rt));
    hide Holds, StoreResult;
  }

  lemma SetApart(words: seq<Word>, bytes: seq<Byte>, bytes': seq<Byte>, saved: set<nat>, op: StoreOp, e: Word, v: Word)
    requires Holds(words, bytes, saved) && StoreResult(op, bytes, e, v) == Some(bytes')
    ensures Holds(words, bytes', saved + {e / 4})
  {
    OnlyItsWord(bytes, bytes', op, e, v);
    hide ByteOf, Join, StoreResult;
    forall i: nat | i < |words| && i !in saved + {e / 4}
      ensures words[i] == Join(bytes'[4 * i], bytes'[4 * i + 1], bytes'[4 * i + 2], bytes'[4 * i + 3])
    {
      WordIndex(i);
      assert bytes'[4 * i] == bytes[4 * i] && bytes'[4 * i + 1] == bytes[4 * i + 1];
      assert bytes'[4 * i + 2] == bytes[4 * i + 2] && bytes'[4 * i + 3] == bytes[4 * i + 3];
    }
  }

  lemma WordIndex(i: nat)
    ensures 4 * i / 4 == (4 * i + 1) / 4 == (4 * i + 2) / 4 == (4 * i + 3) / 4 == i
  {}

  lemma OnlyItsWord(bytes: seq<Byte>, bytes': seq<Byte>, op: StoreOp, e: Word, v: Word)
    requires StoreResult(op, bytes, e, v) == Some(bytes')
    ensures |bytes'| == |bytes| && forall a :: 0 <= a < |bytes| && a / 4 != e / 4 ==> bytes'[a] == bytes[a]
  {
    hide ByteOf;
    SameWordAs(e);
    match op
    case Sw =>
    case Sb =>
    case Sh =>
  }

  lemma SameWordAs(e: Word)
    ensures e % 4 == 0 ==> (e + 1) / 4 == (e + 2) / 4 == (e + 3) / 4 == e / 4
    ensures e % 2 == 0 ==> (e + 1) / 4 == e / 4
  {}

  // ----- straight-line lists -----

  function BlockCode(c: Context, insns: seq<Insn>): seq<J.Bytecode>
    requires forall i :: 0 <= i < |insns| ==> !insns[i].IsBranch()
  {
    if insns == [] then [] else Code(c, insns[0]) + BlockCode(c, insns[1..])
  }

  function ExecuteAll(insns: seq<Insn>, m: State): Option<State>
    requires forall i :: 0 <= i < |insns| ==> !insns[i].IsBranch()
  {
    if insns == [] then Some(m) else
    var next := Execute(insns[0], m);
    if next == None then None else ExecuteAll(insns[1..], next.value)
  }

  /** Every access along the run is one the translation handles; `saved` evolves with the dropped stores. */
  ghost predicate AccessesOk(c: Context, insns: seq<Insn>, m: State, saved: set<nat>)
    requires forall i :: 0 <= i < |insns| ==> !insns[i].IsBranch()
  {
    insns == [] ||
    (AccessOk(c, insns[0], m, saved) &&
     (Execute(insns[0], m).Some? ==>
        AccessesOk(c, insns[1..], Execute(insns[0], m).value, Apart(c, insns[0], m, saved))))
  }

  function ApartAll(c: Context, insns: seq<Insn>, m: State, saved: set<nat>): set<nat>
    requires forall i :: 0 <= i < |insns| ==> !insns[i].IsBranch()
  {
    if insns == [] || Execute(insns[0], m) == None then saved
    else ApartAll(c, insns[1..], Execute(insns[0], m).value, Apart(c, insns[0], m, saved))
  }

  /** For every list of supported instructions and every state, the emitted code takes related machines to
      related machines and gives the operand stack back as it was. */
  lemma {:induction false} BlockCorrect(c: Context, saved: set<nat>, insns: seq<Insn>, m: State, j: J.State, m': State)
    requires ValidContext(c) && Related(c, saved, m, j)
    requires forall i :: 0 <= i < |insns| ==>
               !insns[i].IsBranch() && Encodable(insns[i]) && Supported(c, insns[i]) && Covers(c, insns[i])
    requires ExecuteAll(insns, m) == Some(m') && AccessesOk(c, insns, m, saved)
    ensures Simulates(c, BlockCode(c, insns), j, m', ApartAll(c, insns, m, saved))
    decreases |insns|
  {
    if insns == [] {
      EmptyCorrect(c, saved, m, j);
    } else {
      var mid := Execute(insns[0], m).value;
      var saved1 := Apart(c, insns[0], m, saved);
      InsnCorrect(c, saved, m, j, insns[0], mid);
      hide Related, Execute, Code, Apart, AccessOk, Encodable, Supported, Covers, J.Run;
      var j1 := J.Run(Code(c, insns[0]), j).value;
      BlockCorrect(c, saved1, insns[1..], mid, j1, m');
      J.RunAppend(Code(c, insns[0]), BlockCode(c, insns[1..]), j);
    }
  }

  // ----- where the translation departs from the architecture -----

  /** A result for `$zero` is pushed and never popped: the operand stack grows by one, while the MIPS machine
      does not change. */
  lemma ZeroWriteLeavesValue(c: Context, saved: set<nat>, m: State, j: J.State, insn: Insn, m': State) returns (v: Word)
    requires ValidContext(c) && Related(c, saved, m, j)
    requires Encodable(insn) && ReadsSupported(c, insn) && Covers(c, insn) && AccessOk(c, insn, m, saved)
    requires WritesZero(insn) && Execute(insn, m) == Some(m')
    ensures m' == m && J.Run(Code(c, insn), j) == Some(j.Push(J.Int(v)))
  {
    var code;
    code, v := ZeroWriteRuns(c, saved, m, j, insn);
    hide *;
    NothingPopped(c, code, j, v);
  }

  /** The code of a result that nothing pops. */
  lemma ZeroWriteRuns(c: Context, saved: set<nat>, m: State, j: J.State, insn: Insn) returns (code: seq<J.Bytecode>, v: Word)
    requires ValidContext(c) && Related(c, saved, m, j)
    requires Encodable(insn) && ReadsSupported(c, insn) && Covers(c, insn) && AccessOk(c, insn, m, saved)
    requires WritesZero(insn) && Execute(insn, m).Some?
    ensures Execute(insn, m) == Some(m) && !c.Allocated(R_ZERO)
    ensures Code(c, insn) == code + PopRegister(c, R_ZERO) && Runs(code, j, Stk(j, I(v, j.stack)))
  {
    assert Stk(j, j.stack) == j;
    hide Runs, Related, AluCode, ImmCode, LoadCode, AluResult, ShiftResult, ImmResult, PushRegister, PopRegister, PushUnsigned, PushConst;
    match insn
    case Alu(op, rs, rt, _) =>
      ReadableField(c, insn, rs);
      ReadableField(c, insn, rt);
      code, v := AluCode(c, op, rs, rt), AluResult(op, m.Reg(rs), m.Reg(rt)).value;
      AluRuns(c, saved, m, j, op, rs, rt, j.stack);
    case Shift(op, rt, _, amount) =>
      ReadableField(c, insn, rt);
      code, v := [PushRegister(c, rt), PushConst(amount), ShiftOpcode(op)], ShiftResult(op, m.Reg(rt), amount);
      ShiftRuns(c, saved, m, j, op, rt, amount, j.stack);
    case Imm(op, rs, _, imm) =>
      ReadableField(c, insn, rs);
      code, v := ImmCode(c, op, rs, imm), ImmResult(op, m.Reg(rs), imm).value;
      ImmRuns(c, saved, m, j, op, rs, imm, j.stack);
    case Lui(_, high) =>
      v := Wrap(high * 0x1_0000);
      code := [PushUnsigned(v)];
      LuiRuns(j, v);
    case Load(op, rs, _, offset) => code, v := ZeroLoadRuns(c, saved, m, j, op, rs, offset);
    case Mfhi(_) =>
      code, v := [PushRegister(c, R_HI)], m.Reg(R_HI);
      PushRuns(c, saved, m, j, R_HI, j.stack);
    case Mflo(_) =>
      code, v := [PushRegister(c, R_LO)], m.Reg(R_LO);
      PushRuns(c, saved, m, j, R_LO, j.stack);
  }

  lemma LuiRuns(j: J.State, v: Word)
    ensures Runs([PushUnsigned(v)], j, Stk(j, I(v, j.stack)))
  {
    assert Stk(j, j.stack) == j;
    UnsignedPushes(v, j, j.stack);
    Run1(PushUnsigned(v), j, Stk(j, I(v, j.stack)));
  }

  lemma ZeroLoadRuns(c: Context, saved: set<nat>, m: State, j: J.State, op: LoadOp, rs: Field, offset: Immediate) returns (code: seq<J.Bytecode>, v: Word)
    requires var insn := Load(op, rs, R_ZERO, offset);
             ValidContext(c) && Related(c, saved, m, j) && Encodable(insn) && ReadsSupported(c, insn) && Covers(c, insn) &&
             AccessOk(c, insn, m, saved) && Execute(insn, m).Some?
    ensures code == LoadCode(c, op, rs, offset) && Runs(code, j, Stk(j, I(v, j.stack)))
  {
    var insn := Load(op, rs, R_ZERO, offset);
    ReadableField(c, insn, rs);
    IndexIsAddressIff(m.Reg(rs), offset);
    assert Stk(j, j.stack) == j && c.Allocated(R_MEM);
    hide Related, Readable, Covers, LoadCode, LoadResult, Index, Runs;
    LoadRuns(c, saved, m, j, op, rs, offset, j.stack);
    code, v := LoadCode(c, op, rs, offset), LoadResult(op, m.mem, m.Address(rs, offset)).value;
  }

  lemma NothingPopped(c: Context, code: seq<J.Bytecode>, j: J.State, v: Word)
    requires !c.Allocated(R_ZERO) && Runs(code, j, Stk(j, I(v, j.stack)))
    ensures J.Run(code + PopRegister(c, R_ZERO), j) == Some(j.Push(J.Int(v)))
  {
    hide J.Run;
    assert code + [] == code;
  }

  /** Apart from what it reads, an instruction is translated faithfully exactly when it has no result for
      `$zero`. */
  lemma InsnCorrectIff(c: Context, saved: set<nat>, m: State, j: J.State, insn: Insn, m': State)
    requires ValidContext(c) && Related(c, saved, m, j)
    requires Encodable(insn) && ReadsSupported(c, insn) && Covers(c, insn) && AccessOk(c, insn, m, saved)
    requires Execute(insn, m) == Some(m')
    ensures Simulates(c, Code(c, insn), j, m', Apart(c, insn, m, saved)) <==> !WritesZero(insn)
  {
    if WritesZero(insn) {
      var v := ZeroWriteLeavesValue(c, saved, m, j, insn, m');
      hide *;
      GrownStack(c, Code(c, insn), j, v, m', Apart(c, insn, m, saved));
    } else {
      assert Supported(c, insn);
      hide *;
      InsnCorrect(c, saved, m, j, insn, m');
    }
  }

  lemma GrownStack(c: Context, code: seq<J.Bytecode>, j: J.State, v: Word, m': State, saved': set<nat>)
    requires J.Run(code, j) == Some(j.Push(J.Int(v)))
    ensures !Simulates(c, code, j, m', saved')
  {
    hide J.Run;
    assert J.On(J.Int(v), j.stack) != j.stack;
  }

  /** A word access whose address wraps is an index outside every memory. */
  lemma WrappedIndexThrows(c: Context, saved: set<nat>, m: State, j: J.State, rs: Field, offset: Immediate)
    requires ValidContext(c) && Related(c, saved, m, j) && Readable(c, rs) && c.Allocated(R_MEM) && offset < 0x8000
    requires !Unwrapped(m.Reg(rs), offset)
    ensures Signed(Index(m.Reg(rs), offset)) < 0 || Index(m.Reg(rs), offset) >= |j.memory|
  {
    var base := m.Reg(rs);
    hide Related;
    assert offset % 4 == 0;
    assert (base + 4 * (offset / 4)) / 4 == base / 4 + offset / 4;
  }
}
