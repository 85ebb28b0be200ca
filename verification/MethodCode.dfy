/** The body of an emitted method: every instruction's label, code and delay slot, in order
    (BasicBlock::pass2, JavaMethod::pass2 and the branches of jfmt.cc). */
module MethodCode {
  import opened Words
  import opened Options
  import opened Mips
  import opened Translation
  import opened MipsMethod
  import J = Jvm
  import JvmMethod

  /** What a method's code depends on: its allocation, its instructions, its callees and its result size. */
  datatype Unit = Unit(c: Context, p: Method, env: Callees, size: nat)
  {
    /** Every branch is followed by a slot that is not itself a branch; the last instruction is a slot. */
    predicate BranchesHaveSlots() {
      forall k :: 0 <= k < |p.insns| && p.insns[k].IsBranch() ==> k + 1 < |p.insns| && !p.insns[k + 1].IsBranch()
    }

    /** `Controller::pass0` replaces the instruction after a branch by a delay-slot nop. */
    predicate IsSlot(k: nat)
      requires k < |p.insns|
    {
      k > 0 && p.insns[k - 1].IsBranch()
    }

    function Size(): nat {
      if |p.insns| == 0 then 0 else |p.insns| - 1
    }

    /** Marked by some branch's pass1. */
    predicate IsBranchTarget(k: nat) {
      exists i :: 0 <= i < Size() && Targets(p.insns[i], p.AddressOf(i), p.AddressOf(k))
    }

    predicate HasLabel(k: nat) {
      IsBranchTarget(k) || p.AddressOf(k) in p.table
    }

    /** The instruction in the delay slot of `k`. */
    function Delayed(k: nat): seq<J.Bytecode>
      requires k < |p.insns| && p.insns[k].IsBranch() && BranchesHaveSlots()
    {
      Code(c, p.insns[k + 1])
    }

    predicate Indirect() {
      exists i :: 0 <= i < Size() && p.insns[i].Jr? && p.insns[i].rs != R_RA
    }
  }

  predicate Targets(insn: Insn, a: Word, target: Word) {
    (insn.Branch? && Wrap(a + 4 + 4 * insn.offset) == target) || (insn.Jump? && insn.target == target)
  }

  /** A jump out of the method is compiled as a call that is followed by a return. */
  function Compiled(p: Method, insn: Insn): Insn {
    if insn.Jump? && p.IndexOf(insn.target) == None then Jal(insn.target) else insn
  }

  // ----- jfmt.cc -----

  function OneRegister(cond: Condition): J.IfOp {
    match cond
    case Eq => J.IfEq
    case Ne => J.IfNe
    case Gez => J.IfGe
    case Gtz => J.IfGt
    case Lez => J.IfLe
    case Ltz => J.IfLt
  }

  /** beq and bne compare two registers unless the second is `$zero`. */
  predicate ComparesTwo(cond: Condition, rt: Field) {
    cond in {Eq, Ne} && rt != R_ZERO
  }

  function IfOpOf(cond: Condition, rt: Field): J.IfOp {
    if ComparesTwo(cond, rt) then if cond == Eq then J.IfIcmpEq else J.IfIcmpNe else OneRegister(cond)
  }

  function Operands(c: Context, cond: Condition, rs: Field, rt: Field): seq<J.Bytecode> {
    if ComparesTwo(cond, rt) then [PushRegister(c, rs), PushRegister(c, rt)] else [PushRegister(c, rs)]
  }

  function PushAll(c: Context, regs: seq<Register>): (r: seq<J.Bytecode>)
    ensures |r| == |regs|
  {
    if regs == [] then [] else PushAll(c, regs[..|regs| - 1]) + [PushRegister(c, regs[|regs| - 1])]
  }

  /** The results of a call go to `$v0` and `$v1`. */
  function PopResults(c: Context, size: nat): seq<J.Bytecode> {
    if size == 2 then [J.GetSavedV1] + PopRegister(c, R_V1) + PopRegister(c, R_V0)
    else if size == 1 then PopRegister(c, R_V0)
    else []
  }

  function InvokeOf(u: Unit, callee: Word, indirect: bool): J.Bytecode {
    if indirect then J.InvokeTable else J.InvokeMethod(callee, |u.env.passed(callee)|, u.env.size(callee) >= 1)
  }

  function CallCode(u: Unit, callee: Word, indirect: bool): seq<J.Bytecode> {
    PushAll(u.c, u.env.Passed(callee, indirect)) + [InvokeOf(u, callee, indirect)]
    + PopResults(u.c, u.env.Size(callee, indirect))
  }

  /** Branch operands first, the delay slot next, the transfer of control last. */
  function BranchCode(u: Unit, k: nat): seq<J.Bytecode>
    requires u.BranchesHaveSlots() && k < |u.p.insns| && u.p.insns[k].IsBranch()
  {
    match u.p.insns[k]
    case Branch(cond, rs, rt, offset) =>
      Operands(u.c, cond, rs, rt) + u.Delayed(k)
      + [J.If(IfOpOf(cond, rt), J.AtAddress(Wrap(u.p.AddressOf(k) + 4 + 4 * offset)))]
    case Jump(t) =>
      if u.p.IndexOf(t).Some? then u.Delayed(k) + [J.Goto(J.AtAddress(t))]
      else u.Delayed(k) + CallCode(u, t, false) + [J.Goto(J.FunctionReturn)]
    case Jal(t) => u.Delayed(k) + CallCode(u, t, false)
    case Jalr(rs) => [PushRegister(u.c, rs)] + u.Delayed(k) + CallCode(u, 0, true)
    case Jr(rs) =>
      if rs == R_RA then u.Delayed(k) + [J.Goto(J.FunctionReturn)]
      else [PushRegister(u.c, rs)] + u.Delayed(k) + [J.Goto(J.JumpTable)]
  }

  // ----- basicblock.cc -----

  function Mark(u: Unit, k: nat): seq<J.Bytecode>
  {
    if u.HasLabel(k) then [J.LabelAt(J.AtAddress(u.p.AddressOf(k)))] else []
  }

  function Main(u: Unit, k: nat): seq<J.Bytecode>
    requires u.BranchesHaveSlots() && k < |u.p.insns|
  {
    if u.p.insns[k].IsBranch() then BranchCode(u, k) else Code(u.c, u.p.insns[k])
  }

  /** The second copy of a delay slot that the jump table can reach. */
  function SlotCopy(u: Unit, k: nat): seq<J.Bytecode>
    requires u.BranchesHaveSlots() && k < |u.p.insns|
  {
    var slot := u.p.AddressOf(k + 1);
    if u.p.insns[k].IsBranch() && slot in u.p.table then
      [J.Goto(J.PastSlot(slot)), J.LabelAt(J.AtAddress(slot))] + u.Delayed(k) + [J.LabelAt(J.PastSlot(slot))]
    else []
  }

  function InsnCode(u: Unit, k: nat): seq<J.Bytecode>
    requires u.BranchesHaveSlots() && k < |u.p.insns|
  {
    if u.IsSlot(k) then [] else Mark(u, k) + Main(u, k) + SlotCopy(u, k)
  }

  /** The code of the first `k` instructions. */
  function Body(u: Unit, k: nat): seq<J.Bytecode>
    requires u.BranchesHaveSlots() && k <= |u.p.insns|
  {
    if k == 0 then [] else Body(u, k - 1) + InsnCode(u, k - 1)
  }

  // ----- javamethod.cc -----

  function SwitchCode(u: Unit): seq<J.Bytecode> {
    if u.Indirect() then [J.Goto(J.FunctionReturn), J.LabelAt(J.JumpTable), J.LookupSwitch(u.p.table)] else []
  }

  function ReturnCode(c: Context, size: nat): seq<J.Bytecode> {
    (if size == 2 then [PushRegister(c, R_V1), J.PutSavedV1] else [])
    + if size >= 1 then [PushRegister(c, R_V0), J.Ireturn] else [J.Return]
  }

  /** The whole method; the function's last instruction is not among those emitted. */
  function WholeMethod(u: Unit, prefix: seq<J.Bytecode>): seq<J.Bytecode>
    requires u.BranchesHaveSlots()
  {
    prefix + Body(u, u.Size()) + (SwitchCode(u) + [J.LabelAt(J.FunctionReturn)] + ReturnCode(u.c, u.size))
  }

  // ----- where the code of an instruction stands -----

  function Offset(u: Unit, prefix: seq<J.Bytecode>, k: nat): nat
    requires u.BranchesHaveSlots() && k <= |u.p.insns|
  {
    |prefix| + |Body(u, k)|
  }

  lemma {:induction false} BodyStands(u: Unit, k: nat, n: nat)
    requires u.BranchesHaveSlots() && k <= n <= |u.p.insns|
    ensures Body(u, k) <= Body(u, n)
    decreases n - k
  {
    hide InsnCode;
    if k < n {
      BodyStands(u, k, n - 1);
    }
  }

  lemma InsnStands(u: Unit, prefix: seq<J.Bytecode>, k: nat)
    requires u.BranchesHaveSlots() && k < u.Size()
    ensures JvmMethod.Stands(WholeMethod(u, prefix), Offset(u, prefix, k), InsnCode(u, k))
    ensures Offset(u, prefix, k + 1) == Offset(u, prefix, k) + |InsnCode(u, k)|
  {
    hide InsnCode, SwitchCode, ReturnCode;
    BodyStands(u, k + 1, u.Size());
    var b, all := Body(u, k + 1), Body(u, u.Size());
    hide Body;
    assert all == b + all[|b|..];
    assert WholeMethod(u, prefix)[..|prefix| + |b|] == prefix + b;
    PrefixStands(WholeMethod(u, prefix), prefix, Body(u, k), InsnCode(u, k)) by {
      assert Body(u, k + 1) == Body(u, k) + InsnCode(u, k) by { BodyNext(u, k); }
    }
  }

  lemma BodyNext(u: Unit, k: nat)
    requires u.BranchesHaveSlots() && k < |u.p.insns|
    ensures Body(u, k + 1) == Body(u, k) + InsnCode(u, k)
  {}

  lemma PrefixStands(code: seq<J.Bytecode>, a: seq<J.Bytecode>, b: seq<J.Bytecode>, d: seq<J.Bytecode>)
    requires a + (b + d) <= code
    ensures JvmMethod.Stands(code, |a| + |b|, d)
  {
    assert code[|a| + |b|..|a| + |b| + |d|] == (a + (b + d))[|a| + |b|..];
  }

  // ----- the last instruction -----

  /** `u` with another last instruction. */
  function Relast(u: Unit, insn: Insn): Unit
    requires |u.p.insns| > 0
  {
    u.(p := u.p.(insns := u.p.insns[|u.p.insns| - 1 := insn]))
  }

  /** The function's last instruction is emitted only as a delay slot: when it is not one, the method's code
      does not depend on it. */
  lemma LastInsnDropped(u: Unit, insn: Insn, prefix: seq<J.Bytecode>)
    requires u.BranchesHaveSlots() && |u.p.insns| > 0 && !u.IsSlot(|u.p.insns| - 1) && !insn.IsBranch()
    ensures Relast(u, insn).BranchesHaveSlots()
    ensures WholeMethod(Relast(u, insn), prefix) == WholeMethod(u, prefix)
  {
    var v, n := Relast(u, insn), |u.p.insns| - 1;
    assert forall i :: 0 <= i < n ==> v.p.insns[i] == u.p.insns[i];
    assert v.BranchesHaveSlots();
    SameBody(u, v, n);
    assert v.Indirect() == u.Indirect();
    hide Body, ReturnCode;
  }

  lemma {:induction false} SameBody(u: Unit, v: Unit, k: nat)
    requires |u.p.insns| == |v.p.insns| > 0 && k < |u.p.insns| && u.BranchesHaveSlots() && v.BranchesHaveSlots()
    requires v == u.(p := u.p.(insns := v.p.insns)) && !u.IsSlot(|u.p.insns| - 1)
    requires forall i :: 0 <= i < |u.p.insns| - 1 ==> v.p.insns[i] == u.p.insns[i]
    ensures Body(u, k) == Body(v, k)
    decreases k
  {
    hide InsnCode;
    if k > 0 {
      SameBody(u, v, k - 1);
      SameInsn(u, v, k - 1);
    }
  }

  lemma SameInsn(u: Unit, v: Unit, k: nat)
    requires |u.p.insns| == |v.p.insns| && k < |u.p.insns| - 1 && u.BranchesHaveSlots() && v.BranchesHaveSlots()
    requires v == u.(p := u.p.(insns := v.p.insns)) && !u.IsSlot(|u.p.insns| - 1)
    requires forall i :: 0 <= i < |u.p.insns| - 1 ==> v.p.insns[i] == u.p.insns[i]
    ensures InsnCode(u, k) == InsnCode(v, k)
  {
    SameTargets(u, v, k);
    assert u.p.insns[k] == v.p.insns[k] && u.IsSlot(k) == v.IsSlot(k);
    if u.p.insns[k].IsBranch() {
      SameBranch(u, v, k);
    }
    hide Code, BranchCode, Unit.IsBranchTarget, Unit.Delayed, Unit.BranchesHaveSlots;
    assert Main(u, k) == Main(v, k);
    assert SlotCopy(u, k) == SlotCopy(v, k);
    assert Mark(u, k) == Mark(v, k);
    hide Main, SlotCopy, Mark;
  }

  lemma SameTargets(u: Unit, v: Unit, k: nat)
    requires |u.p.insns| == |v.p.insns| && v == u.(p := u.p.(insns := v.p.insns))
    requires forall i :: 0 <= i < |u.p.insns| - 1 ==> v.p.insns[i] == u.p.insns[i]
    ensures u.IsBranchTarget(k) == v.IsBranchTarget(k)
  {
    hide Targets;
  }

  lemma SameBranch(u: Unit, v: Unit, k: nat)
    requires |u.p.insns| == |v.p.insns| && k + 1 < |u.p.insns| && u.BranchesHaveSlots() && v.BranchesHaveSlots()
    requires v == u.(p := u.p.(insns := v.p.insns)) && u.p.insns[k].IsBranch()
    requires u.p.insns[k] == v.p.insns[k] && u.p.insns[k + 1] == v.p.insns[k + 1]
    ensures BranchCode(u, k) == BranchCode(v, k) && u.Delayed(k) == v.Delayed(k)
  {
    SameCalls(u, v);
    hide Code, CallCode, Operands, PushRegister;
  }

  lemma SameCalls(u: Unit, v: Unit)
    requires u.c == v.c && u.env == v.env
    ensures forall callee, indirect :: CallCode(u, callee, indirect) == CallCode(v, callee, indirect)
  {
    hide PushAll, PopResults;
  }
}
