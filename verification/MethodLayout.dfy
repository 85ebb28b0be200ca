/** Where the labels of an emitted method stand: each is defined once, so that a jump to an address goes to
    the code of the instruction at that address. */
module MethodLayout {
  import opened Words
  import opened Options
  import opened Mips
  import opened Translation
  import opened MipsMethod
  import opened MethodCode
  import J = Jvm
  import JvmMethod

  // ----- instruction code has no labels -----

  predicate NoLabels(s: seq<J.Bytecode>) {
    forall i :: 0 <= i < |s| ==> !s[i].LabelAt?
  }

  lemma PushesAreNoLabels(c: Context, r: Register)
    ensures !PushRegister(c, r).LabelAt? && NoLabels(PopRegister(c, r)) && NoLabels(PopHiLo(c))
  {}

  lemma ConstsAreNoLabels(v: int)
    ensures !PushConst(v).LabelAt? && NoLabels(AddOffset(v))
  {}

  lemma UnsignedIsNoLabel(v: Word)
    ensures !PushUnsigned(v).LabelAt?
  {}

  lemma AluHasNoLabels(c: Context, op: AluOp, rs: Register, rt: Register)
    ensures NoLabels(AluCode(c, op, rs, rt))
  {
    PushesAreNoLabels(c, rs);
    PushesAreNoLabels(c, rt);
    ConstsAreNoLabels(1);
    ConstsAreNoLabels(-1);
    hide PushRegister, PushConst;
  }

  lemma ImmHasNoLabels(c: Context, op: ImmOp, rs: Register, imm: Immediate)
    ensures NoLabels(ImmCode(c, op, rs, imm))
  {
    PushesAreNoLabels(c, rs);
    ConstsAreNoLabels(1);
    ConstsAreNoLabels(imm);
    hide PushRegister, PushConst;
  }

  lemma AddressHasNoLabels(c: Context, last: int, rs: Register, offset: int)
    ensures NoLabels(PushIndex(c, rs, offset)) && NoLabels(PushAddress(c, rs, offset)) && NoLabels(WordCode(c, rs, offset))
    ensures NoLabels(BitShift(c, last, rs, offset))
  {
    PushesAreNoLabels(c, rs);
    PushesAreNoLabels(c, R_MEM);
    ConstsAreNoLabels(offset);
    ConstsAreNoLabels(offset / 4);
    ConstsAreNoLabels(last);
    ConstsAreNoLabels(2);
    ConstsAreNoLabels(3);
    hide PushRegister, PushConst, AddOffset;
  }

  lemma LoadHasNoLabels(c: Context, op: LoadOp, rs: Register, offset: int)
    ensures NoLabels(LoadCode(c, op, rs, offset))
  {
    AddressHasNoLabels(c, LastByte(op), rs, offset);
    ConstsAreNoLabels(0xFF);
    hide PushConst, WordCode, BitShift, PushAddress;
  }

  lemma StoreHasNoLabels(c: Context, op: StoreOp, rs: Register, rt: Register, offset: int)
    ensures NoLabels(StoreCode(c, op, rs, rt, offset))
  {
    AddressHasNoLabels(c, if op == Sh then 2 else 3, rs, offset);
    PushesAreNoLabels(c, rt);
    PushesAreNoLabels(c, R_MEM);
    ConstsAreNoLabels(StoreMask(op));
    ConstsAreNoLabels(-1);
    hide PushRegister, PushConst, PushIndex, BitShift, PushAddress, StoreMask;
  }

  lemma MulDivHasNoLabels(c: Context, op: MulDivOp, rs: Register, rt: Register)
    ensures NoLabels(MulDivCode(c, op, rs, rt))
  {
    PushesAreNoLabels(c, rs);
    PushesAreNoLabels(c, rt);
    PushesAreNoLabels(c, R_LO);
    PushesAreNoLabels(c, R_HI);
    hide PushRegister, PopRegister, PopHiLo;
  }

  lemma CodeHasNoLabels(c: Context, insn: Insn)
    requires !insn.IsBranch()
    ensures NoLabels(Code(c, insn))
  {
    hide AluCode, ImmCode, LoadCode, StoreCode, MulDivCode, PushRegister, PopRegister, PushUnsigned, PushConst;
    match insn
    case Nop =>
    case Alu(op, rs, rt, rd) =>
      AluHasNoLabels(c, op, rs, rt);
      PushesAreNoLabels(c, rd);
    case Shift(_, rt, rd, amount) =>
      PushesAreNoLabels(c, rt);
      PushesAreNoLabels(c, rd);
      ConstsAreNoLabels(amount);
    case Imm(op, rs, rt, imm) =>
      ImmHasNoLabels(c, op, rs, imm);
      PushesAreNoLabels(c, rt);
    case Lui(rt, high) =>
      UnsignedIsNoLabel(Wrap(high * 0x1_0000));
      PushesAreNoLabels(c, rt);
    case Load(op, rs, rt, offset) =>
      LoadHasNoLabels(c, op, rs, offset);
      PushesAreNoLabels(c, rt);
    case Store(op, rs, rt, offset) => StoreHasNoLabels(c, op, rs, rt, offset);
    case MulDiv(op, rs, rt) => MulDivHasNoLabels(c, op, rs, rt);
    case Mfhi(rd) =>
      PushesAreNoLabels(c, R_HI);
      PushesAreNoLabels(c, rd);
    case Mflo(rd) =>
      PushesAreNoLabels(c, R_LO);
      PushesAreNoLabels(c, rd);
  }

  lemma {:induction false} PushAllHasNoLabels(c: Context, regs: seq<Register>)
    ensures NoLabels(PushAll(c, regs))
  {
    if regs != [] {
      PushesAreNoLabels(c, regs[|regs| - 1]);
      PushAllHasNoLabels(c, regs[..|regs| - 1]);
      hide PushRegister;
    }
  }

  lemma CallHasNoLabels(u: Unit, callee: Word, indirect: bool)
    ensures NoLabels(CallCode(u, callee, indirect))
  {
    PushAllHasNoLabels(u.c, u.env.Passed(callee, indirect));
    PushesAreNoLabels(u.c, R_V0);
    PushesAreNoLabels(u.c, R_V1);
    hide PushAll, PopRegister;
  }

  lemma MainHasNoLabels(u: Unit, k: nat)
    requires u.BranchesHaveSlots() && k < |u.p.insns|
    ensures NoLabels(Main(u, k))
  {
    var insn := u.p.insns[k];
    if insn.IsBranch() {
      CodeHasNoLabels(u.c, u.p.insns[k + 1]);
      hide PushRegister, Code, CallCode;
      match insn
      case Branch(_, rs, rt, _) =>
        PushesAreNoLabels(u.c, rs);
        PushesAreNoLabels(u.c, rt);
      case Jump(t) => CallHasNoLabels(u, t, false);
      case Jal(t) => CallHasNoLabels(u, t, false);
      case Jalr(rs) =>
        PushesAreNoLabels(u.c, rs);
        CallHasNoLabels(u, 0, true);
      case Jr(rs) => PushesAreNoLabels(u.c, rs);
    } else {
      CodeHasNoLabels(u.c, insn);
    }
  }

  // ----- which labels an instruction's code defines -----

  predicate Lacks(s: seq<J.Bytecode>, l: J.Label) {
    forall i :: 0 <= i < |s| ==> s[i] != J.LabelAt(l)
  }

  lemma InsnLacks(u: Unit, k: nat, l: J.Label)
    requires u.BranchesHaveSlots() && k < |u.p.insns|
    requires l == J.AtAddress(u.p.AddressOf(k)) ==> u.IsSlot(k)
    requires u.p.insns[k].IsBranch() && !u.IsSlot(k) ==>
               l != J.AtAddress(u.p.AddressOf(k + 1)) && l != J.PastSlot(u.p.AddressOf(k + 1))
    ensures Lacks(InsnCode(u, k), l)
  {
    hide Mark, Main, SlotCopy, Lacks, NoLabels;
    if u.IsSlot(k) {
      NothingLacks(l);
    } else {
      MainHasNoLabels(u, k);
      MarkLacks(u, k, l);
      SlotCopyLacks(u, k, l);
      LacksBoth(Mark(u, k), Main(u, k), l);
      LacksBoth(Mark(u, k) + Main(u, k), SlotCopy(u, k), l);
    }
  }

  lemma NothingLacks(l: J.Label)
    ensures Lacks([], l)
  {}

  lemma SlotCopyLacks(u: Unit, k: nat, l: J.Label)
    requires u.BranchesHaveSlots() && k < |u.p.insns|
    requires u.p.insns[k].IsBranch() ==> l != J.AtAddress(u.p.AddressOf(k + 1)) && l != J.PastSlot(u.p.AddressOf(k + 1))
    ensures Lacks(SlotCopy(u, k), l)
  {
    if u.p.insns[k].IsBranch() {
      CodeHasNoLabels(u.c, u.p.insns[k + 1]);
    }
    hide Code;
  }

  lemma AddressesDiffer(p: Method, i: nat, k: nat)
    requires p.WellPlaced() && i <= |p.insns| && k <= |p.insns|
    ensures p.AddressOf(i) == p.AddressOf(k) <==> i == k
    ensures p.AddressOf(i) == p.base + 4 * i
  {}

  /** The instructions before `k` do not define the label of `k`, unless `k` is a slot. */
  lemma {:induction false} BodyLacksAddress(u: Unit, k: nat, n: nat)
    requires u.BranchesHaveSlots() && u.p.WellPlaced() && n <= k < |u.p.insns|
    requires u.IsSlot(k) ==> n < k
    ensures Lacks(Body(u, n), J.AtAddress(u.p.AddressOf(k)))
    decreases n
  {
    hide InsnCode, Lacks;
    var l := J.AtAddress(u.p.AddressOf(k));
    if n == 0 {
      NothingLacks(l);
    } else {
      BodyLacksAddress(u, k, n - 1);
      AddressesDiffer(u.p, n - 1, k);
      AddressesDiffer(u.p, n, k);
      InsnLacks(u, n - 1, l);
      LacksBoth(Body(u, n - 1), InsnCode(u, n - 1), l);
    }
  }

  lemma {:induction false} BodyLacksPast(u: Unit, k: nat, n: nat)
    requires u.BranchesHaveSlots() && u.p.WellPlaced() && n < k < |u.p.insns|
    ensures Lacks(Body(u, n), J.PastSlot(u.p.AddressOf(k)))
    decreases n
  {
    hide InsnCode, Lacks;
    var l := J.PastSlot(u.p.AddressOf(k));
    if n == 0 {
      NothingLacks(l);
    } else {
      BodyLacksPast(u, k, n - 1);
      AddressesDiffer(u.p, n, k);
      InsnLacks(u, n - 1, l);
      LacksBoth(Body(u, n - 1), InsnCode(u, n - 1), l);
    }
  }

  lemma {:induction false} BodyLacksName(u: Unit, n: nat, l: J.Label)
    requires u.BranchesHaveSlots() && n <= |u.p.insns| && (l == J.JumpTable || l == J.FunctionReturn)
    ensures Lacks(Body(u, n), l)
    decreases n
  {
    hide InsnCode, Lacks;
    if n == 0 {
      NothingLacks(l);
    } else {
      BodyLacksName(u, n - 1, l);
      InsnLacks(u, n - 1, l);
      LacksBoth(Body(u, n - 1), InsnCode(u, n - 1), l);
    }
  }

  // ----- positions -----

  lemma PositionAfter(a: seq<J.Bytecode>, l: J.Label, b: seq<J.Bytecode>, code: seq<J.Bytecode>)
    requires Lacks(a, l) && a + [J.LabelAt(l)] + b == code
    ensures JvmMethod.Position(code, l) == |a| < |code| && code[|a|] == J.LabelAt(l) && code[|a| + 1..] == b
  {
    var r := JvmMethod.Position(code, l);
    assert code[|a|] == J.LabelAt(l);
    assert forall i :: 0 <= i < |a| ==> code[i] == a[i];
    hide JvmMethod.Position;
  }

  lemma LacksBoth(a: seq<J.Bytecode>, b: seq<J.Bytecode>, l: J.Label)
    requires Lacks(a, l) && (Lacks(b, l) || NoLabels(b))
    ensures Lacks(a + b, l)
  {}

  /** A label inside a part of the code. */
  lemma PositionInside(code: seq<J.Bytecode>, before: seq<J.Bytecode>, a: seq<J.Bytecode>, l: J.Label, b: seq<J.Bytecode>)
    requires before <= code && JvmMethod.Stands(code, |before|, a + [J.LabelAt(l)] + b)
    requires Lacks(before, l) && Lacks(a, l)
    ensures JvmMethod.Position(code, l) == |before| + |a|
  {
    var part := a + [J.LabelAt(l)] + b;
    var rest := code[|before| + |part|..];
    assert code == before + part + rest;
    hide *;
    assert before + part + rest == before + (a + [J.LabelAt(l)] + (b + rest));
    PositionBehind(code, before, a, l, b + rest);
  }

  lemma PrefixOf(prefix: seq<J.Bytecode>, b: seq<J.Bytecode>, all: seq<J.Bytecode>, tail: seq<J.Bytecode>)
    requires b <= all
    ensures prefix + b <= prefix + all + tail
  {
    assert all == b + all[|b|..];
    assert prefix + all + tail == (prefix + b) + (all[|b|..] + tail);
  }

  lemma BeforeInsn(u: Unit, prefix: seq<J.Bytecode>, k: nat)
    requires u.BranchesHaveSlots() && k <= u.Size()
    ensures prefix + Body(u, k) <= WholeMethod(u, prefix)
  {
    BodyStands(u, k, u.Size());
    hide Body, SwitchCode, ReturnCode;
    PrefixOf(prefix, Body(u, k), Body(u, u.Size()), SwitchCode(u) + [J.LabelAt(J.FunctionReturn)] + ReturnCode(u.c, u.size));
  }

  /** A label in the code of instruction `k` that nothing before defines. */
  lemma PositionInInsn(u: Unit, prefix: seq<J.Bytecode>, k: nat, a: seq<J.Bytecode>, l: J.Label, b: seq<J.Bytecode>)
    requires u.BranchesHaveSlots() && k < u.Size() && NoLabels(prefix)
    requires InsnCode(u, k) == a + [J.LabelAt(l)] + b && Lacks(a, l) && Lacks(Body(u, k), l)
    ensures JvmMethod.Position(WholeMethod(u, prefix), l) == Offset(u, prefix, k) + |a|
  {
    InsnStands(u, prefix, k);
    BeforeInsn(u, prefix, k);
    NoLabelsLack(prefix, l);
    OffsetIs(u, prefix, k);
    hide *;
    LacksBoth(prefix, Body(u, k), l);
    PositionInside(WholeMethod(u, prefix), prefix + Body(u, k), a, l, b);
  }

  lemma OffsetIs(u: Unit, prefix: seq<J.Bytecode>, k: nat)
    requires u.BranchesHaveSlots() && k <= |u.p.insns|
    ensures Offset(u, prefix, k) == |prefix + Body(u, k)|
  {
    hide Body;
  }

  /** A jump to a labelled instruction goes to the start of its code. */
  lemma AddressPosition(u: Unit, prefix: seq<J.Bytecode>, k: nat)
    requires u.BranchesHaveSlots() && u.p.WellPlaced() && k < u.Size() && !u.IsSlot(k) && u.HasLabel(k) && NoLabels(prefix)
    ensures JvmMethod.Position(WholeMethod(u, prefix), J.AtAddress(u.p.AddressOf(k))) == Offset(u, prefix, k)
  {
    var l := J.AtAddress(u.p.AddressOf(k));
    BodyLacksAddress(u, k, k);
    hide Body, SlotCopy, Main;
    assert InsnCode(u, k) == [] + [J.LabelAt(l)] + (Main(u, k) + SlotCopy(u, k));
    hide InsnCode;
    PositionInInsn(u, prefix, k, [], l, Main(u, k) + SlotCopy(u, k));
  }

  /** Where the jump table enters the delay slot of branch `k`. */
  function SlotEntry(u: Unit, prefix: seq<J.Bytecode>, k: nat): nat
    requires u.BranchesHaveSlots() && k < |u.p.insns|
  {
    Offset(u, prefix, k) + |Mark(u, k)| + |Main(u, k)| + 1
  }

  lemma MarkLacks(u: Unit, k: nat, l: J.Label)
    requires l != J.AtAddress(u.p.AddressOf(k))
    ensures Lacks(Mark(u, k), l)
  {}

  /** A branch's code, when the jump table can reach its slot. */
  lemma LabelledSlot(u: Unit, k: nat)
    requires u.BranchesHaveSlots() && k < |u.p.insns| && u.p.insns[k].IsBranch() && !u.IsSlot(k)
    requires u.p.AddressOf(k + 1) in u.p.table
    ensures var slot := u.p.AddressOf(k + 1);
            InsnCode(u, k) ==
            Mark(u, k) + Main(u, k) + [J.Goto(J.PastSlot(slot))] + [J.LabelAt(J.AtAddress(slot))]
            + (u.Delayed(k) + [J.LabelAt(J.PastSlot(slot))])
  {
    hide Main, Mark, Code;
  }

  lemma SlotPosition(u: Unit, prefix: seq<J.Bytecode>, k: nat)
    requires u.BranchesHaveSlots() && u.p.WellPlaced() && k < u.Size() && u.p.insns[k].IsBranch() && NoLabels(prefix)
    requires !u.IsSlot(k)
    requires u.p.AddressOf(k + 1) in u.p.table
    ensures JvmMethod.Position(WholeMethod(u, prefix), J.AtAddress(u.p.AddressOf(k + 1))) == SlotEntry(u, prefix, k)
  {
    var slot := u.p.AddressOf(k + 1);
    var l := J.AtAddress(slot);
    BodyLacksAddress(u, k + 1, k);
    MainHasNoLabels(u, k);
    AddressesDiffer(u.p, k, k + 1);
    MarkLacks(u, k, l);
    LabelledSlot(u, k);
    hide Body, Main, Mark, Code, InsnCode, Unit.BranchesHaveSlots;
    LacksBoth(Mark(u, k), Main(u, k), l);
    LacksBoth(Mark(u, k) + Main(u, k), [J.Goto(J.PastSlot(slot))], l);
    PositionInInsn(u, prefix, k, Mark(u, k) + Main(u, k) + [J.Goto(J.PastSlot(slot))], l,
                   u.Delayed(k) + [J.LabelAt(J.PastSlot(slot))]);
  }

  lemma Regroup(a: seq<J.Bytecode>, b: seq<J.Bytecode>, d: seq<J.Bytecode>, e: seq<J.Bytecode>, f: seq<J.Bytecode>)
    ensures a + b + d + (e + f) == a + (b + d) + e + f + []
  {}

  /** The label after the second copy of a slot. */
  lemma PastPosition(u: Unit, prefix: seq<J.Bytecode>, k: nat)
    requires u.BranchesHaveSlots() && u.p.WellPlaced() && k < u.Size() && u.p.insns[k].IsBranch() && NoLabels(prefix)
    requires !u.IsSlot(k)
    requires u.p.AddressOf(k + 1) in u.p.table
    ensures JvmMethod.Position(WholeMethod(u, prefix), J.PastSlot(u.p.AddressOf(k + 1))) == Offset(u, prefix, k + 1) - 1
  {
    var slot := u.p.AddressOf(k + 1);
    var l := J.PastSlot(slot);
    InsnStands(u, prefix, k);
    BodyLacksPast(u, k + 1, k);
    MainHasNoLabels(u, k);
    CodeHasNoLabels(u.c, u.p.insns[k + 1]);
    NoLabelsLack(u.Delayed(k), l);
    MarkLacks(u, k, l);
    LabelledSlot(u, k);
    var d, jump := u.Delayed(k), [J.Goto(l)] + [J.LabelAt(J.AtAddress(slot))];
    assert Lacks(jump, l) by { hide *; JumpLacks(slot); }
    hide *;
    var front := Mark(u, k) + Main(u, k);
    LacksBoth(Mark(u, k), Main(u, k), l);
    LacksBoth(front, jump, l);
    LacksBoth(front + jump, d, l);
    Regroup(front, [J.Goto(l)], [J.LabelAt(J.AtAddress(slot))], d, [J.LabelAt(l)]);
    PositionInInsn(u, prefix, k, front + jump + d, l, []);
    LengthPlusOne(front + jump + d, l);
  }

  lemma JumpLacks(slot: Word)
    ensures Lacks([J.Goto(J.PastSlot(slot))] + [J.LabelAt(J.AtAddress(slot))], J.PastSlot(slot))
  {}

  lemma LengthPlusOne(a: seq<J.Bytecode>, l: J.Label)
    ensures |a + [J.LabelAt(l)] + []| == |a| + 1
  {}

  /** A label after the body. */
  lemma PositionInTail(u: Unit, prefix: seq<J.Bytecode>, a: seq<J.Bytecode>, l: J.Label, b: seq<J.Bytecode>)
    requires u.BranchesHaveSlots() && NoLabels(prefix) && (l == J.JumpTable || l == J.FunctionReturn) && Lacks(a, l)
    requires a + [J.LabelAt(l)] + b == SwitchCode(u) + [J.LabelAt(J.FunctionReturn)] + ReturnCode(u.c, u.size)
    ensures var at, code := JvmMethod.Position(WholeMethod(u, prefix), l), WholeMethod(u, prefix);
            at < |code| && code[at] == J.LabelAt(l) && code[at + 1..] == b
  {
    BodyLacksName(u, u.Size(), l);
    NoLabelsLack(prefix, l);
    WholeIs(u, prefix);
    hide *;
    LacksBoth(prefix, Body(u, u.Size()), l);
    PositionBehind(WholeMethod(u, prefix), prefix + Body(u, u.Size()), a, l, b);
  }

  lemma WholeIs(u: Unit, prefix: seq<J.Bytecode>)
    requires u.BranchesHaveSlots()
    ensures WholeMethod(u, prefix) ==
            (prefix + Body(u, u.Size())) + (SwitchCode(u) + [J.LabelAt(J.FunctionReturn)] + ReturnCode(u.c, u.size))
  {
    hide Body, SwitchCode, ReturnCode;
  }

  lemma PositionBehind(code: seq<J.Bytecode>, before: seq<J.Bytecode>, a: seq<J.Bytecode>, l: J.Label, b: seq<J.Bytecode>)
    requires Lacks(before, l) && Lacks(a, l) && code == before + (a + [J.LabelAt(l)] + b)
    ensures JvmMethod.Position(code, l) < |code| && code[JvmMethod.Position(code, l)] == J.LabelAt(l)
    ensures code[JvmMethod.Position(code, l) + 1..] == b && JvmMethod.Position(code, l) == |before| + |a|
  {
    hide *;
    LacksBoth(before, a, l);
    assert code == before + a + [J.LabelAt(l)] + b;
    PositionAfter(before + a, l, b, code);
  }

  lemma NoLabelsLack(s: seq<J.Bytecode>, l: J.Label)
    requires NoLabels(s)
    ensures Lacks(s, l)
  {}

  lemma TableStands(u: Unit, prefix: seq<J.Bytecode>)
    requires u.BranchesHaveSlots() && u.Indirect() && NoLabels(prefix)
    ensures var at, code := JvmMethod.Position(WholeMethod(u, prefix), J.JumpTable), WholeMethod(u, prefix);
            at + 1 < |code| && code[at] == J.LabelAt(J.JumpTable) && code[at + 1] == J.LookupSwitch(u.p.table)
  {
    var rest := [J.LookupSwitch(u.p.table)] + ([J.LabelAt(J.FunctionReturn)] + ReturnCode(u.c, u.size));
    hide WholeMethod, ReturnCode;
    PositionInTail(u, prefix, [J.Goto(J.FunctionReturn)], J.JumpTable, rest);
    var at, code := JvmMethod.Position(WholeMethod(u, prefix), J.JumpTable), WholeMethod(u, prefix);
    assert code[at + 1..][0] == J.LookupSwitch(u.p.table);
  }

  lemma ReturnStands(u: Unit, prefix: seq<J.Bytecode>)
    requires u.BranchesHaveSlots() && NoLabels(prefix)
    ensures var at, code := JvmMethod.Position(WholeMethod(u, prefix), J.FunctionReturn), WholeMethod(u, prefix);
            at < |code| && code[at] == J.LabelAt(J.FunctionReturn) && JvmMethod.Stands(code, at + 1, ReturnCode(u.c, u.size))
  {
    assert Lacks(SwitchCode(u), J.FunctionReturn);
    hide *;
    PositionInTail(u, prefix, SwitchCode(u), J.FunctionReturn, ReturnCode(u.c, u.size));
    RestStands(WholeMethod(u, prefix), JvmMethod.Position(WholeMethod(u, prefix), J.FunctionReturn) + 1);
  }

  lemma RestStands(code: seq<J.Bytecode>, at: nat)
    requires at <= |code|
    ensures JvmMethod.Stands(code, at, code[at..])
  {}
}
