/** The locals that an instruction's code mentions are those of the registers that the usage counters count for it
    (fillSources and fillDestinations of tools/translator/instructions/). */
module CodeLocals {
  import opened Words
  import opened Mips
  import opened Jvm
  import opened Translation
  import opened StraightLine
  import opened Correctness

  function LocalOf(b: Bytecode): set<int> {
    match b
    case Iload(n) => {n}
    case Istore(n) => {n}
    case Aload(n) => {n}
    case Astore(n) => {n}
    case Iinc(n, _) => {n}
    case _ => {}
  }

  /** The locals that some code reads or writes. */
  function Locals(code: seq<Bytecode>): set<int> {
    if code == [] then {} else LocalOf(code[0]) + Locals(code[1..])
  }

  function LocalsOf(c: Context, regs: set<Register>): set<int> {
    set r | r in regs :: c.ra[r]
  }

  /** The registers whose locals an instruction's code mentions: those that are counted, but no memory reference in
      a call of the runtime, and nothing for a dropped access of `$ra`. */
  function Mentioned(c: Context, insn: Insn): set<Register> {
    if SkipsRa(c, insn) then {}
    else if (insn.Load? && insn.lop != Lw && !c.inlines) || (insn.Store? && insn.stop != Sw && !c.inlines)
    then Touched(c, insn) - {R_MEM}
    else Touched(c, insn)
  }

  // ----- sequences -----

  lemma {:induction false} LocalsAppend(a: seq<Bytecode>, b: seq<Bytecode>)
    ensures Locals(a + b) == Locals(a) + Locals(b)
    decreases |a|
  {
    hide LocalOf;
    if a == [] {
      assert a + b == b;
    } else {
      assert (a + b)[1..] == a[1..] + b;
      LocalsAppend(a[1..], b);
    }
  }

  lemma LocalsOne(x: Bytecode)
    ensures Locals([x]) == LocalOf(x)
  {
    hide LocalOf;
    assert [x][1..] == [];
  }

  lemma LocalsTwo(x: Bytecode, y: Bytecode)
    ensures Locals([x, y]) == LocalOf(x) + LocalOf(y)
  {
    hide LocalOf, Locals;
    assert [x, y] == [x] + [y];
    LocalsAppend([x], [y]);
    LocalsOne(x);
    LocalsOne(y);
  }

  lemma LocalsThree(x: Bytecode, y: Bytecode, z: Bytecode)
    ensures Locals([x, y, z]) == LocalOf(x) + LocalOf(y) + LocalOf(z)
  {
    hide LocalOf, Locals;
    assert [x, y, z] == [x, y] + [z];
    LocalsAppend([x, y], [z]);
    LocalsTwo(x, y);
    LocalsOne(z);
  }

  lemma LocalsFour(w: Bytecode, x: Bytecode, y: Bytecode, z: Bytecode)
    ensures Locals([w, x, y, z]) == LocalOf(w) + LocalOf(x) + LocalOf(y) + LocalOf(z)
  {
    hide LocalOf, Locals;
    assert [w, x, y, z] == [w, x, y] + [z];
    LocalsAppend([w, x, y], [z]);
    LocalsThree(w, x, y);
    LocalsOne(z);
  }

  lemma {:induction false} NoLocals(code: seq<Bytecode>)
    requires forall i :: 0 <= i < |code| ==> LocalOf(code[i]) == {}
    ensures Locals(code) == {}
    decreases |code|
  {
    hide LocalOf;
    if code != [] {
      NoLocals(code[1..]);
    }
  }

  // ----- registers -----

  function Own(c: Context, r: Register): set<int> {
    if r == R_ZERO then {} else {c.ra[r]}
  }

  predicate HasLocal(c: Context, r: Register) {
    r == R_ZERO || c.Allocated(r)
  }

  lemma PushMentions(c: Context, r: Register)
    requires HasLocal(c, r)
    ensures LocalOf(PushRegister(c, r)) == Own(c, r)
  {}

  lemma PopMentions(c: Context, r: Register)
    requires HasLocal(c, r) && !c.Allocated(R_ZERO)
    ensures Locals(PopRegister(c, r)) == Own(c, r)
  {
    if r != R_ZERO {
      LocalsOne(PopRegister(c, r)[0]);
    }
  }

  lemma ConstMentions(v: int)
    ensures LocalOf(PushConst(v)) == {}
  {}

  lemma OffsetMentions(offset: int)
    ensures Locals(AddOffset(offset)) == {}
  {
    ConstMentions(offset);
    hide PushConst;
    NoLocals(AddOffset(offset));
  }

  lemma GreaterMentions()
    ensures Locals(GREATER) == {}
  {
    ConstMentions(1);
    hide PushConst;
    NoLocals(GREATER);
  }

  lemma OwnTwo(c: Context, a: Register, b: Register)
    ensures LocalsOf(c, {a, b} - {R_ZERO}) == Own(c, a) + Own(c, b)
  {}

  lemma OwnThree(c: Context, a: Register, b: Register, d: Register)
    ensures LocalsOf(c, {a, b, d} - {R_ZERO}) == Own(c, a) + Own(c, b) + Own(c, d)
  {}

  lemma OwnFour(c: Context, a: Register, b: Register, d: Register, e: Register)
    ensures LocalsOf(c, {a, b, d, e} - {R_ZERO}) == Own(c, a) + Own(c, b) + Own(c, d) + Own(c, e)
  {}

  // ----- the pieces of code -----

  lemma AluMentions(c: Context, op: AluOp, rs: Register, rt: Register)
    requires HasLocal(c, rs) && HasLocal(c, rt)
    ensures Locals(AluCode(c, op, rs, rt)) == Own(c, rs) + Own(c, rt)
  {
    PushMentions(c, rs);
    PushMentions(c, rt);
    ConstMentions(-1);
    hide PushRegister, PushConst, Locals;
    var s, t := PushRegister(c, rs), PushRegister(c, rt);
    match op
    case Addu =>
      LocalsThree(s, t, Iadd);
      LocalsOne(s);
      LocalsOne(t);
    case Subu =>
      LocalsThree(s, t, Isub);
      LocalsTwo(t, Ineg);
    case BitNor => NorMentions(c, rs, rt);
    case Slt => SltMentions(c, rs, rt);
    case Sltu => SltuMentions(c, rs, rt);
    case Sllv => LocalsThree(t, s, Ishl);
    case Srlv => LocalsThree(t, s, Iushr);
    case Srav => LocalsThree(t, s, Ishr);
    case _ => LocalsThree(s, t, AluOpcode(op));
  }

  lemma NorMentions(c: Context, rs: Register, rt: Register)
    requires HasLocal(c, rs) && HasLocal(c, rt)
    ensures Locals(AluCode(c, BitNor, rs, rt)) == Own(c, rs) + Own(c, rt)
  {
    PushMentions(c, rs);
    PushMentions(c, rt);
    ConstMentions(-1);
    hide PushRegister, PushConst, Locals;
    var s, t, ones := PushRegister(c, rs), PushRegister(c, rt), [PushConst(-1), Ixor];
    LocalsOne(PushConst(-1));
    LocalsTwo(PushConst(-1), Ixor);
    LocalsThree(s, t, Ior);
    LocalsOne(s);
    LocalsOne(t);
    LocalsAppend([s, t, Ior], ones);
    LocalsAppend([s], ones);
    LocalsAppend([t], ones);
  }

  lemma SltMentions(c: Context, rs: Register, rt: Register)
    requires HasLocal(c, rs) && HasLocal(c, rt)
    ensures Locals(AluCode(c, AluOp.Slt, rs, rt)) == Own(c, rs) + Own(c, rt)
  {
    PushMentions(c, rs);
    PushMentions(c, rt);
    GreaterMentions();
    hide PushRegister, PushConst, Locals, GREATER;
    var s, t := PushRegister(c, rs), PushRegister(c, rt);
    LocalsFour(t, I2l, s, I2l);
    LocalsAppend([t, I2l, s, I2l], GREATER);
  }

  lemma SltuMentions(c: Context, rs: Register, rt: Register)
    requires HasLocal(c, rs) && HasLocal(c, rt)
    ensures Locals(AluCode(c, AluOp.Sltu, rs, rt)) == Own(c, rs) + Own(c, rt)
  {
    PushMentions(c, rs);
    PushMentions(c, rt);
    GreaterMentions();
    assert LocalOf(MASK) == {};
    hide PushRegister, PushConst, Locals, GREATER, MASK;
    var s, t := PushRegister(c, rs), PushRegister(c, rt);
    LocalsFour(t, I2l, MASK, Land);
    LocalsFour(s, I2l, MASK, Land);
    LocalsAppend([t, I2l, MASK, Land], [s, I2l, MASK, Land]);
    LocalsAppend([t, I2l, MASK, Land] + [s, I2l, MASK, Land], GREATER);
  }

  lemma ImmMentions(c: Context, op: ImmOp, rs: Register, imm: Immediate)
    requires HasLocal(c, rs)
    ensures Locals(ImmCode(c, op, rs, imm)) == Own(c, rs)
  {
    PushMentions(c, rs);
    ConstMentions(imm);
    GreaterMentions();
    hide PushRegister, PushConst, Locals, GREATER, MASK;
    var s, k := PushRegister(c, rs), PushConst(imm);
    match op
    case Addi =>
      LocalsOne(k);
      LocalsThree(s, k, Iadd);
    case Addiu =>
      LocalsOne(k);
      LocalsThree(s, k, Iadd);
    case Andi => LocalsThree(s, k, Iand);
    case Ori => LocalsThree(s, k, Ior);
    case Xori => LocalsThree(s, k, Ixor);
    case Slti =>
      LocalsFour(k, I2l, s, I2l);
      LocalsAppend([k, I2l, s, I2l], GREATER);
    case Sltiu => SltiuMentions(c, rs, imm);
  }

  lemma SltiuMentions(c: Context, rs: Register, imm: Immediate)
    requires HasLocal(c, rs)
    ensures Locals(ImmCode(c, Sltiu, rs, imm)) == Own(c, rs)
  {
    PushMentions(c, rs);
    GreaterMentions();
    assert LocalOf(MASK) == {};
    hide PushRegister, PushConst, Locals, GREATER, MASK;
    var x, s := Ldc2(Wrap(imm)), PushRegister(c, rs);
    LocalsOne(x);
    LocalsFour(s, I2l, MASK, Land);
    LocalsAppend([x], [s, I2l, MASK, Land]);
    LocalsAppend([x] + [s, I2l, MASK, Land], GREATER);
    assert [x, s, I2l, MASK, Land] == [x] + [s, I2l, MASK, Land];
  }

  lemma IndexMentions(c: Context, rs: Register, offset: int)
    requires HasLocal(c, rs)
    ensures Locals(PushIndex(c, rs, offset)) == Own(c, rs)
  {
    PushMentions(c, rs);
    ConstMentions(2);
    OffsetMentions(offset);
    OffsetMentions(offset / 4);
    hide PushRegister, PushConst, Locals, AddOffset;
    var s, two := PushRegister(c, rs), PushConst(2);
    LocalsOne(s);
    LocalsTwo(two, Iushr);
    LocalsThree(s, two, Iushr);
    LocalsAppend([s], AddOffset(offset));
    LocalsAppend([s] + AddOffset(offset), [two, Iushr]);
    LocalsAppend([s, two, Iushr], AddOffset(offset / 4));
  }

  lemma AddressMentions(c: Context, rs: Register, offset: int)
    requires HasLocal(c, rs)
    ensures Locals(PushAddress(c, rs, offset)) == Own(c, rs)
  {
    PushMentions(c, rs);
    OffsetMentions(offset);
    hide PushRegister, PushConst, Locals, AddOffset;
    LocalsOne(PushRegister(c, rs));
    LocalsAppend([PushRegister(c, rs)], AddOffset(offset));
  }

  lemma ShiftMentions(c: Context, last: int, rs: Register, offset: int)
    requires HasLocal(c, rs)
    ensures Locals(BitShift(c, last, rs, offset)) == Own(c, rs)
  {
    PushMentions(c, rs);
    ConstMentions(last);
    ConstMentions(3);
    OffsetMentions(offset);
    hide PushRegister, PushConst, Locals, AddOffset;
    var s, k := PushRegister(c, rs), PushConst(last);
    var tail := [k, Iand, Isub, PushConst(3), Ishl];
    LocalsTwo(k, s);
    NoLocals(tail);
    LocalsAppend([k, s], AddOffset(offset));
    LocalsAppend([k, s] + AddOffset(offset), tail);
  }

  lemma WordMentions(c: Context, rs: Register, offset: int)
    requires HasLocal(c, rs) && c.Allocated(R_MEM)
    ensures Locals(WordCode(c, rs, offset)) == Own(c, rs) + Own(c, R_MEM)
  {
    PushMentions(c, R_MEM);
    IndexMentions(c, rs, offset);
    hide PushRegister, PushConst, Locals, PushIndex;
    var p := PushRegister(c, R_MEM);
    LocalsOne(p);
    LocalsOne(Iaload);
    LocalsAppend([p], PushIndex(c, rs, offset));
    LocalsAppend([p] + PushIndex(c, rs, offset), [Iaload]);
  }

  lemma LoadMentions(c: Context, op: LoadOp, rs: Register, offset: int)
    requires HasLocal(c, rs) && c.Allocated(R_MEM)
    ensures Locals(LoadCode(c, op, rs, offset)) == Own(c, rs) + if op == Lw || c.inlines then Own(c, R_MEM) else {}
  {
    WordMentions(c, rs, offset);
    hide PushRegister, PushConst, Locals, WordCode, PushAddress, BitShift, Convert, LastByte;
    if op != Lw {
      if c.inlines {
        InlineLoadMentions(c, op, rs, offset);
      } else {
        AddressMentions(c, rs, offset);
        var call := Invoke(MemoryRead(ReadKindOf(op)));
        LocalsOne(call);
        LocalsAppend(PushAddress(c, rs, offset), [call]);
      }
    }
  }

  lemma InlineLoadMentions(c: Context, op: LoadOp, rs: Register, offset: int)
    requires HasLocal(c, rs) && c.Allocated(R_MEM) && op != Lw
    ensures Locals(WordCode(c, rs, offset) + BitShift(c, LastByte(op), rs, offset) + [Iushr] + Convert(op)) == Own(c, rs) + Own(c, R_MEM)
  {
    WordMentions(c, rs, offset);
    ShiftMentions(c, LastByte(op), rs, offset);
    ConvertMentions(op);
    LocalsOne(Iushr);
    hide *;
    var w, b := WordCode(c, rs, offset), BitShift(c, LastByte(op), rs, offset);
    LocalsAppend(w, b);
    LocalsAppend(w + b, [Iushr]);
    LocalsAppend(w + b + [Iushr], Convert(op));
  }

  lemma ConvertMentions(op: LoadOp)
    ensures Locals(Convert(op)) == {}
  {
    ConstMentions(0xFF);
    hide PushConst;
    NoLocals(Convert(op));
  }

  lemma InlineStoreMentions(c: Context, op: StoreOp, rs: Register, rt: Register, offset: int)
    requires HasLocal(c, rs) && HasLocal(c, rt) && c.Allocated(R_MEM)
    ensures Locals(InlineStore(c, op, rs, rt, offset)) == Own(c, rs) + Own(c, rt) + Own(c, R_MEM)
  {
    var mask, last := PushConst(StoreMask(op)), if op == Sh then 2 else 3;
    PushMentions(c, R_MEM);
    IndexMentions(c, rs, offset);
    ShiftMentions(c, last, rs, offset);
    ClearMentions();
    PeekMentions(StoreMask(op));
    MergeMentions(c, rt, StoreMask(op));
    hide *;
    var p, i, b := PushRegister(c, R_MEM), PushIndex(c, rs, offset), BitShift(c, last, rs, offset);
    var peek, clear := [Dup2, Iaload, mask], [DupX2, Ishl, PushConst(-1), Ixor, Iand];
    var merge := [Swap, PushRegister(c, rt), mask, Iand, Swap, Ishl, Ior, Iastore];
    InlineStoreIs(c, op, rs, rt, offset);
    LocalsOne(p);
    LocalsAppend([p], i);
    LocalsAppend([p] + i, peek);
    LocalsAppend([p] + i + peek, b);
    LocalsAppend([p] + i + peek + b, clear);
    LocalsAppend([p] + i + peek + b + clear, merge);
  }

  lemma InlineStoreIs(c: Context, op: StoreOp, rs: Register, rt: Register, offset: int)
    ensures var mask, last := PushConst(StoreMask(op)), if op == Sh then 2 else 3;
            InlineStore(c, op, rs, rt, offset) ==
            [PushRegister(c, R_MEM)] + PushIndex(c, rs, offset) + [Dup2, Iaload, mask] + BitShift(c, last, rs, offset)
            + [DupX2, Ishl, PushConst(-1), Ixor, Iand] + [Swap, PushRegister(c, rt), mask, Iand, Swap, Ishl, Ior, Iastore]
  {
    hide PushConst, PushRegister, PushIndex, BitShift, StoreMask;
  }

  lemma PeekMentions(mask: int)
    ensures Locals([Dup2, Iaload, PushConst(mask)]) == {}
  {
    ConstMentions(mask);
    hide PushConst;
    NoLocals([Dup2, Iaload, PushConst(mask)]);
  }

  lemma ClearMentions()
    ensures Locals([DupX2, Ishl, PushConst(-1), Ixor, Iand]) == {}
  {
    ConstMentions(-1);
    hide PushConst;
    NoLocals([DupX2, Ishl, PushConst(-1), Ixor, Iand]);
  }

  lemma MergeMentions(c: Context, rt: Register, mask: int)
    requires HasLocal(c, rt)
    ensures Locals([Swap, PushRegister(c, rt), PushConst(mask), Iand, Swap, Ishl, Ior, Iastore]) == Own(c, rt)
  {
    PushMentions(c, rt);
    ConstMentions(mask);
    hide PushRegister, PushConst, Locals;
    var front, back := [Swap, PushRegister(c, rt)], [PushConst(mask), Iand, Swap, Ishl, Ior, Iastore];
    LocalsTwo(Swap, PushRegister(c, rt));
    NoLocals(back);
    LocalsAppend(front, back);
    assert front + back == [Swap, PushRegister(c, rt), PushConst(mask), Iand, Swap, Ishl, Ior, Iastore];
  }

  lemma StoreMentions(c: Context, op: StoreOp, rs: Register, rt: Register, offset: int)
    requires HasLocal(c, rs) && HasLocal(c, rt) && c.Allocated(R_MEM)
    ensures Locals(StoreCode(c, op, rs, rt, offset)) ==
            Own(c, rs) + Own(c, rt) + if op == Sw || c.inlines then Own(c, R_MEM) else {}
  {
    PushMentions(c, R_MEM);
    PushMentions(c, rt);
    IndexMentions(c, rs, offset);
    AddressMentions(c, rs, offset);
    hide PushRegister, PushConst, Locals, PushIndex, PushAddress, InlineStore;
    if op == Sw {
      var p, i, t := PushRegister(c, R_MEM), PushIndex(c, rs, offset), PushRegister(c, rt);
      LocalsOne(p);
      LocalsTwo(t, Iastore);
      LocalsAppend([p], i);
      LocalsAppend([p] + i, [t, Iastore]);
    } else if c.inlines {
      InlineStoreMentions(c, op, rs, rt, offset);
    } else {
      var call := Invoke(MemoryWrite(if op == Sb then WriteByte else WriteShort));
      LocalsTwo(PushRegister(c, rt), call);
      LocalsAppend(PushAddress(c, rs, offset), [PushRegister(c, rt), call]);
    }
  }

  lemma HiLoMentions(c: Context)
    requires c.Allocated(R_HI) && c.Allocated(R_LO) && !c.Allocated(R_ZERO)
    ensures Locals(PopHiLo(c)) == Own(c, R_HI) + Own(c, R_LO)
  {
    PopMentions(c, R_HI);
    PopMentions(c, R_LO);
    ConstMentions(32);
    hide PopRegister, PushConst, Locals;
    var split := [Dup2, PushConst(32), Lushr, L2i];
    NoLocals(split);
    LocalsOne(L2i);
    LocalsAppend(split, PopRegister(c, R_HI));
    LocalsAppend(split + PopRegister(c, R_HI), [L2i]);
    LocalsAppend(split + PopRegister(c, R_HI) + [L2i], PopRegister(c, R_LO));
  }

  lemma MulDivMentions(c: Context, op: MulDivOp, rs: Register, rt: Register)
    requires HasLocal(c, rs) && HasLocal(c, rt) && c.Allocated(R_LO) && !c.Allocated(R_ZERO)
    requires (op in {Mult, Div} && !c.usingHi) || c.Allocated(R_HI)
    ensures Locals(MulDivCode(c, op, rs, rt)) ==
            Own(c, rs) + Own(c, rt) + Own(c, R_LO) + if op in {Mult, Div} && !c.usingHi then {} else Own(c, R_HI)
  {
    hide PushRegister, PopRegister, Locals, PopHiLo, Own;
    PopMentions(c, R_LO);
    if !(op in {Mult, Div} && !c.usingHi) {
      HiLoMentions(c);
    }
    match op
    case Mult =>
      if c.usingHi {
        ProductMentions(c, rs, rt);
      } else {
        OperandsThen(c, rs, rt, Imul, PopRegister(c, R_LO));
      }
    case Div =>
      if c.usingHi {
        DivMentions(c, rs, rt);
      } else {
        OperandsThen(c, rs, rt, Idiv, PopRegister(c, R_LO));
      }
    case Multu => OperandsThen(c, rs, rt, Invoke(CallMultu), PopHiLo(c));
    case Divu => OperandsThen(c, rs, rt, Invoke(CallDivu), PopHiLo(c));
  }

  lemma OperandsThen(c: Context, rs: Register, rt: Register, b: Bytecode, rest: seq<Bytecode>)
    requires HasLocal(c, rs) && HasLocal(c, rt) && LocalOf(b) == {}
    ensures Locals([PushRegister(c, rs), PushRegister(c, rt), b] + rest) == Own(c, rs) + Own(c, rt) + Locals(rest)
  {
    PushMentions(c, rs);
    PushMentions(c, rt);
    hide PushRegister, Locals, Own;
    LocalsThree(PushRegister(c, rs), PushRegister(c, rt), b);
    LocalsAppend([PushRegister(c, rs), PushRegister(c, rt), b], rest);
  }

  lemma ProductMentions(c: Context, rs: Register, rt: Register)
    requires HasLocal(c, rs) && HasLocal(c, rt) && c.Allocated(R_LO) && c.Allocated(R_HI) && !c.Allocated(R_ZERO)
    ensures Locals([PushRegister(c, rs), I2l, PushRegister(c, rt), I2l, Lmul] + PopHiLo(c)) ==
            Own(c, rs) + Own(c, rt) + Own(c, R_LO) + Own(c, R_HI)
  {
    PushMentions(c, rs);
    PushMentions(c, rt);
    HiLoMentions(c);
    hide PushRegister, Locals, Own, PopHiLo;
    var s, t := PushRegister(c, rs), PushRegister(c, rt);
    LocalsFour(s, I2l, t, I2l);
    LocalsOne(Lmul);
    assert [s, I2l, t, I2l, Lmul] == [s, I2l, t, I2l] + [Lmul];
    LocalsAppend([s, I2l, t, I2l], [Lmul]);
    LocalsAppend([s, I2l, t, I2l, Lmul], PopHiLo(c));
  }

  lemma DivMentions(c: Context, rs: Register, rt: Register)
    requires HasLocal(c, rs) && HasLocal(c, rt) && c.Allocated(R_LO) && c.Allocated(R_HI) && !c.Allocated(R_ZERO)
    ensures Locals([PushRegister(c, rs), PushRegister(c, rt), Dup2, Idiv] + PopRegister(c, R_LO) + [Irem] + PopRegister(c, R_HI)) ==
            Own(c, rs) + Own(c, rt) + Own(c, R_LO) + Own(c, R_HI)
  {
    PushMentions(c, rs);
    PushMentions(c, rt);
    PopMentions(c, R_LO);
    PopMentions(c, R_HI);
    hide PushRegister, PopRegister, Locals, Own;
    var s, t := PushRegister(c, rs), PushRegister(c, rt);
    var head := [s, t, Dup2, Idiv] + PopRegister(c, R_LO);
    LocalsFour(s, t, Dup2, Idiv);
    LocalsOne(Irem);
    LocalsAppend([s, t, Dup2, Idiv], PopRegister(c, R_LO));
    LocalsAppend(head, [Irem]);
    LocalsAppend(head + [Irem], PopRegister(c, R_HI));
  }

  // ----- every instruction -----

  lemma Counted(c: Context, insn: Insn, r: Register)
    requires Covers(c, insn) && (r == R_ZERO || r in Touched(c, insn))
    ensures HasLocal(c, r)
  {
    hide Touched;
  }

  /** An instruction's code mentions exactly the locals of the registers that are counted for it, apart from the
      memory reference of a runtime call and dropped accesses of `$ra`. */
  lemma CodeMentions(c: Context, insn: Insn)
    requires Covers(c, insn) && !c.Allocated(R_ZERO) && !insn.IsBranch()
    ensures Locals(Code(c, insn)) == LocalsOf(c, Mentioned(c, insn)) && Mentioned(c, insn) <= Touched(c, insn)
  {
    hide Covers, AluCode, ImmCode, LoadCode, StoreCode, MulDivCode, PushRegister, PopRegister, PushConst, PushUnsigned, Locals, Own, LocalsOf;
    match insn
    case Nop => Empty(c);
    case Alu(op, rs, rt, rd) =>
      OwnThree(c, rd, rs, rt);
      Counted(c, insn, rs);
      Counted(c, insn, rt);
      Counted(c, insn, rd);
      AluMentions(c, op, rs, rt);
      PopMentions(c, rd);
      LocalsAppend(AluCode(c, op, rs, rt), PopRegister(c, rd));
      Empty(c);
      OwnZero(c);
    case Shift(op, rt, rd, amount) =>
      OwnTwo(c, rd, rt);
      Counted(c, insn, rt);
      Counted(c, insn, rd);
      PushMentions(c, rt);
      PopMentions(c, rd);
      ConstMentions(amount);
      LocalsThree(PushRegister(c, rt), PushConst(amount), ShiftOpcode(op));
      LocalsAppend([PushRegister(c, rt), PushConst(amount), ShiftOpcode(op)], PopRegister(c, rd));
      Empty(c);
      OwnZero(c);
    case Imm(op, rs, rt, imm) =>
      OwnTwo(c, rt, rs);
      Counted(c, insn, rs);
      Counted(c, insn, rt);
      ImmMentions(c, op, rs, imm);
      PopMentions(c, rt);
      LocalsAppend(ImmCode(c, op, rs, imm), PopRegister(c, rt));
      Increment(c, rt, imm);
    case Lui(rt, high) =>
      OwnTwo(c, rt, rt);
      Same(rt);
      Counted(c, insn, rt);
      UnsignedMentions(Wrap(high * 0x1_0000));
      PopMentions(c, rt);
      LocalsOne(PushUnsigned(Wrap(high * 0x1_0000)));
      LocalsAppend([PushUnsigned(Wrap(high * 0x1_0000))], PopRegister(c, rt));
    case Load(op, rs, rt, offset) => LoadInsnMentions(c, op, rs, rt, offset);
    case Store(op, rs, rt, offset) => StoreInsnMentions(c, op, rs, rt, offset);
    case MulDiv(op, rs, rt) =>
      OwnThree(c, rs, rt, R_LO);
      OwnFour(c, rs, rt, R_LO, R_HI);
      SetOf(rs, rt);
      Counted(c, insn, rs);
      Counted(c, insn, rt);
      Counted(c, insn, R_LO);
      if !(op in {Mult, Div} && !c.usingHi) {
        Counted(c, insn, R_HI);
      }
      MulDivMentions(c, op, rs, rt);
    case Mfhi(rd) => MoveMentions(c, insn, R_HI, rd);
    case Mflo(rd) => MoveMentions(c, insn, R_LO, rd);
  }

  lemma Empty(c: Context)
    ensures Locals([]) == {} && LocalsOf(c, {}) == {} && LocalsOf(c, {R_ZERO} - {R_ZERO}) == {} && LocalsOf(c, {} - {R_ZERO}) == {}
  {}

  lemma OwnZero(c: Context)
    ensures Own(c, R_ZERO) == {}
  {}

  lemma Same(r: Register)
    ensures {r, r} == {r}
  {}

  lemma SetOf(rs: Register, rt: Register)
    ensures {rs, rt, R_LO} + {} == {rs, rt, R_LO} && {rs, rt, R_LO} + {R_HI} == {rs, rt, R_LO, R_HI}
  {}

  lemma Increment(c: Context, rt: Register, imm: int)
    ensures Locals([Iinc(c.ra[rt], imm)]) == {c.ra[rt]}
    ensures rt != R_ZERO ==> Own(c, rt) == {c.ra[rt]}
  {
    LocalsOne(Iinc(c.ra[rt], imm));
  }

  lemma UnsignedMentions(v: Word)
    ensures LocalOf(PushUnsigned(v)) == {}
  {}

  lemma MoveMentions(c: Context, insn: Insn, r: Register, rd: Field)
    requires Covers(c, insn) && !c.Allocated(R_ZERO) && ((insn == Mfhi(rd) && r == R_HI) || (insn == Mflo(rd) && r == R_LO))
    ensures Locals(Code(c, insn)) == LocalsOf(c, Mentioned(c, insn))
  {
    hide Covers, PushRegister, PopRegister, Locals, Own, LocalsOf;
    OwnTwo(c, rd, r);
    Counted(c, insn, r);
    Counted(c, insn, rd);
    PushMentions(c, r);
    PopMentions(c, rd);
    LocalsOne(PushRegister(c, r));
    LocalsAppend([PushRegister(c, r)], PopRegister(c, rd));
  }

  lemma LoadInsnMentions(c: Context, op: LoadOp, rs: Field, rt: Field, offset: Immediate)
    requires Covers(c, Load(op, rs, rt, offset)) && !c.Allocated(R_ZERO)
    ensures Locals(Code(c, Load(op, rs, rt, offset))) == LocalsOf(c, Mentioned(c, Load(op, rs, rt, offset)))
  {
    var insn := Load(op, rs, rt, offset);
    hide Covers, LoadCode, PopRegister, Locals, Own, LocalsOf;
    Empty(c);
    OwnThree(c, rt, rs, R_MEM);
    OwnTwo(c, rt, rs);
    WithoutMemory(rt, rs);
    Counted(c, insn, rs);
    Counted(c, insn, rt);
    Counted(c, insn, R_MEM);
    LoadMentions(c, op, rs, offset);
    PopMentions(c, rt);
    LocalsAppend(LoadCode(c, op, rs, offset), PopRegister(c, rt));
  }

  lemma StoreInsnMentions(c: Context, op: StoreOp, rs: Field, rt: Field, offset: Immediate)
    requires Covers(c, Store(op, rs, rt, offset)) && !c.Allocated(R_ZERO)
    ensures Locals(Code(c, Store(op, rs, rt, offset))) == LocalsOf(c, Mentioned(c, Store(op, rs, rt, offset)))
  {
    var insn := Store(op, rs, rt, offset);
    hide Covers, StoreCode, Locals, Own, LocalsOf;
    Empty(c);
    OwnThree(c, rs, rt, R_MEM);
    OwnTwo(c, rs, rt);
    WithoutMemory(rs, rt);
    Counted(c, insn, rs);
    Counted(c, insn, rt);
    Counted(c, insn, R_MEM);
    StoreMentions(c, op, rs, rt, offset);
  }

  lemma WithoutMemory(a: Field, b: Field)
    ensures {a as Register, b, R_MEM} - {R_ZERO} - {R_MEM} == {a as Register, b} - {R_ZERO}
  {}
}
