/** The imperative passes over a function: attaching delay slots (controller.cc), marking branch targets
    (jfmt.cc), splitting into basic blocks (function.cc), and emitting the blocks (basicblock.cc). */
module MethodEmitter {
  import opened Words
  import opened Options
  import opened Mips
  import opened Translation
  import opened MipsMethod
  import opened MethodCode
  import opened Emitter
  import J = Jvm

  /** `Instruction`: a delay-slot nop stands for an instruction that was attached to its branch. */
  class Instruction {
    const insn: Mips.Insn
    const isDelaySlotNop: bool
    var delayed: Option<Mips.Insn>
    var branchTarget: bool

    constructor (insn: Mips.Insn, isDelaySlotNop: bool)
      ensures this.insn == insn && this.isDelaySlotNop == isDelaySlotNop && delayed == None && !branchTarget
    {
      this.insn := insn;
      this.isDelaySlotNop := isDelaySlotNop;
      delayed := None;
      branchTarget := false;
    }

    predicate HasDelaySlot() {
      !isDelaySlotNop && insn.IsBranch()
    }
  }

  // ----- Controller::pass0 -----

  /** Slots in any text, even one with a branch in a slot: a slot has no slot of its own. */
  predicate SlotAt(text: seq<Mips.Insn>, k: nat)
    requires k < |text|
  {
    k > 0 && !SlotAt(text, k - 1) && text[k - 1].IsBranch()
  }

  ghost predicate Attached(text: seq<Mips.Insn>, objects: seq<Instruction>)
    reads objects
  {
    |objects| <= |text| &&
    (forall i, k :: 0 <= i < k < |objects| ==> objects[i] != objects[k]) &&
    forall k :: 0 <= k < |objects| ==> AttachedAt(text, objects, k)
  }

  /** The object at `k` is the instruction there, or a nop when it is a slot; a branch has its slot attached. */
  ghost predicate AttachedAt(text: seq<Mips.Insn>, objects: seq<Instruction>, k: nat)
    requires k < |objects| <= |text|
    reads objects
  {
    var o := objects[k];
    o.isDelaySlotNop == SlotAt(text, k) && (!SlotAt(text, k) ==> o.insn == text[k]) &&
    o.delayed == (if o.HasDelaySlot() && k + 1 < |objects| then Some(text[k + 1]) else None)
  }

  method Pass0(text: seq<Mips.Insn>) returns (objects: seq<Instruction>)
    ensures fresh(objects) && |objects| == |text|
    ensures forall k :: 0 <= k < |text| ==> !objects[k].branchTarget
    ensures Attached(text, objects)
  {
    objects := [];
    var last: Instruction? := null;
    for i := 0 to |text|
      invariant |objects| == i && fresh(objects)
      invariant forall k :: 0 <= k < i ==> !objects[k].branchTarget
      invariant i > 0 ==> last == objects[i - 1]
      invariant Attached(text, objects)
    {
      ghost var before := objects;
      label Start:
      assert i >= 1 ==> AttachedAt(text, before, i - 1);
      assert SlotAt(text, i) == (i >= 1 && last.HasDelaySlot());
      var insn := new Instruction(text[i], false);
      if i >= 1 && last.HasDelaySlot() {
        last.delayed := Some(text[i]);
        insn := new Instruction(Nop, true);
      }
      last := insn;
      objects := objects + [insn];
      assert AttachedAt(text, objects, i);
      forall k | 0 <= k < i ensures AttachedAt(text, objects, k) {
        assert objects[k] == before[k] && old@Start(AttachedAt(text, before, k));
      }
    }
  }

  // ----- pass1 of the branches -----

  /** Every branch and every jump inside the method marks the object at its target. */
  method MarkTargets(u: Unit, objects: seq<Instruction>)
    requires u.BranchesHaveSlots() && u.p.WellPlaced() && Attached(u.p.insns, objects) && |objects| == |u.p.insns|
    requires forall k :: 0 <= k < |objects| ==> !objects[k].branchTarget
    modifies objects`branchTarget
    ensures Attached(u.p.insns, objects)
    ensures forall k :: 0 <= k < |objects| ==> objects[k].branchTarget == u.IsBranchTarget(k)
  {
    for i := 0 to u.Size()
      invariant Attached(u.p.insns, objects)
      invariant forall k :: 0 <= k < |objects| ==> objects[k].branchTarget == TargetBefore(u, i, k)
    {
      hide TargetBefore, AttachedAt, Targets, Unit.BranchesHaveSlots;
      MarkTarget(u, objects, i);
      forall k | 0 <= k < |objects|
        ensures TargetBefore(u, i + 1, k) <==>
                TargetBefore(u, i, k) || Targets(u.p.insns[i], u.p.AddressOf(i), u.p.AddressOf(k))
      {
        NextTarget(u, i, k);
      }
    }
  }

  /** `controller->getBranchTarget(dst)->setBranchTarget()`. */
  method MarkTarget(u: Unit, objects: seq<Instruction>, i: nat)
    requires u.p.WellPlaced() && Attached(u.p.insns, objects) && i < |objects| == |u.p.insns|
    modifies objects`branchTarget
    ensures Attached(u.p.insns, objects)
    ensures forall k :: 0 <= k < |objects| ==>
              objects[k].branchTarget == (old(objects[k].branchTarget) || Targets(u.p.insns[i], u.p.AddressOf(i), u.p.AddressOf(k)))
  {
    var insn := u.p.insns[i];
    if insn.Branch? || insn.Jump? {
      var a := if insn.Jump? then insn.target else Wrap(u.p.AddressOf(i) + 4 + 4 * insn.offset);
      forall k | 0 <= k < |objects| ensures a == u.p.AddressOf(k) <==> u.p.IndexOf(a) == Some(k) {
        AddressAt(u.p, a, k);
      }
      var t := u.p.IndexOf(a);
      assert t.Some? ==> t.value < |objects|;
      hide Method.AddressOf, Method.IndexOf;
      if t.Some? {
        objects[t.value].branchTarget := true;
        forall k | 0 <= k < |objects| ensures AttachedAt(u.p.insns, objects, k) {
          assert old(AttachedAt(u.p.insns, objects, k));
        }
      }
    }
  }

  lemma AddressAt(p: Method, a: Word, k: nat)
    requires p.WellPlaced() && k < |p.insns|
    ensures a == p.AddressOf(k) <==> p.IndexOf(a) == Some(k)
  {}

  predicate TargetBefore(u: Unit, n: nat, k: nat)
    requires n <= u.Size()
  {
    exists i :: 0 <= i < n && Targets(u.p.insns[i], u.p.AddressOf(i), u.p.AddressOf(k))
  }

  lemma NextTarget(u: Unit, i: nat, k: nat)
    requires u.p.WellPlaced() && i < u.Size() && k < |u.p.insns|
    ensures TargetBefore(u, i + 1, k) <==>
            TargetBefore(u, i, k) || Targets(u.p.insns[i], u.p.AddressOf(i), u.p.AddressOf(k))
  {
    hide Targets;
  }

  // ----- the basic blocks -----

  datatype Block = Block(first: nat, last: nat)

  /** Consecutive, non-empty blocks from 0 to n. */
  ghost predicate Tiles(blocks: seq<Block>, n: nat) {
    if blocks == [] then n == 0
    else
      var b := blocks[|blocks| - 1];
      b.first < b.last == n && Tiles(blocks[..|blocks| - 1], b.first)
  }

  /** `Function::Function`: a block ends after a branch and its slot, or after a branch target.  Functions are
      made before pass1 marks the targets, so that only branches end blocks in fact. */
  method SplitBlocks(objects: seq<Instruction>, lastInsn: nat) returns (blocks: seq<Block>)
    requires lastInsn <= |objects|
    ensures Tiles(blocks, lastInsn)
  {
    blocks := [];
    var first, last, i := 0, 0, 0;
    while i < lastInsn
      invariant first <= last == i <= lastInsn
      invariant Tiles(blocks, first)
    {
      var insn := objects[i];
      last := last + 1;
      if (insn.insn.IsBranch() || insn.branchTarget) && i != 0 {
        if insn.HasDelaySlot() && i + 1 < lastInsn {
          last := last + 1;
          i := i + 1;
        }
        if last != first {
          ghost var before := blocks;
          blocks := blocks + [Block(first, last)];
          assert blocks[..|blocks| - 1] == before;
        }
        first := last;
      }
      i := i + 1;
    }
    if last != first {
      ghost var before := blocks;
      blocks := blocks + [Block(first, lastInsn)];
      assert blocks[..|blocks| - 1] == before;
    }
  }

  // ----- pass2 -----

  class Pass2 {
    const u: Unit
    const emit: Emit

    constructor (u: Unit)
      ensures this.u == u && fresh(emit) && emit.output == []
    {
      this.u := u;
      emit := new Emit();
    }

    ghost predicate Reflects(objects: seq<Instruction>)
      requires u.BranchesHaveSlots()
      reads objects
    {
      Attached(u.p.insns, objects) && |objects| == |u.p.insns| &&
      forall k :: 0 <= k < |objects| ==> objects[k].branchTarget == u.IsBranchTarget(k)
    }

    method PushAll(regs: seq<Register>)
      modifies emit`output
      ensures emit.output == old(emit.output) + MethodCode.PushAll(u.c, regs)
    {
      var i := 0;
      while i < |regs|
        invariant 0 <= i <= |regs|
        invariant emit.output == old(emit.output) + MethodCode.PushAll(u.c, regs[..i])
      {
        hide PushRegister;
        emit.PushRegister(u.c, regs[i]);
        i := i + 1;
        assert regs[..i][..i - 1] == regs[..i - 1];
      }
      assert regs[..|regs|] == regs;
    }

    /** `Jal::pass2` after its delay slot. */
    method Call(callee: Word, indirect: bool)
      modifies emit`output
      ensures emit.output == old(emit.output) + CallCode(u, callee, indirect)
    {
      hide PushRegister, PopRegister, MethodCode.PushAll;
      PushAll(u.env.Passed(callee, indirect));
      emit.Insn(InvokeOf(u, callee, indirect));
      var size := u.env.Size(callee, indirect);
      if size == 2 {
        emit.Insn(J.GetSavedV1);
        emit.PopRegister(u.c, R_V1);
        emit.PopRegister(u.c, R_V0);
      } else if size == 1 {
        emit.PopRegister(u.c, R_V0);
      }
    }

    /** `pass2` of the instruction attached to a branch. */
    method Delayed(o: Instruction, ghost k: nat)
      requires u.BranchesHaveSlots() && k < |u.p.insns| && u.p.insns[k].IsBranch() && o.delayed == Some(u.p.insns[k + 1])
      modifies emit`output
      ensures emit.output == old(emit.output) + u.Delayed(k)
    {
      hide Code;
      emit.Pass2(u.c, o.delayed.value);
    }

    method PushOperands(cond: Condition, rs: Field, rt: Field)
      modifies emit`output
      ensures emit.output == old(emit.output) + Operands(u.c, cond, rs, rt)
    {
      hide PushRegister;
      emit.PushRegister(u.c, rs);
      if ComparesTwo(cond, rt) {
        emit.PushRegister(u.c, rt);
      }
    }

    /** A jump out of the method is a call and a return. */
    method JumpTo(t: Word)
      modifies emit`output
      ensures emit.output == old(emit.output) + (if u.p.IndexOf(t).Some? then [J.Goto(J.AtAddress(t))]
                                                 else CallCode(u, t, false) + [J.Goto(J.FunctionReturn)])
    {
      hide CallCode;
      if u.p.IndexOf(t).Some? {
        emit.Insn(J.Goto(J.AtAddress(t)));
      } else {
        Call(t, false);
        emit.Insn(J.Goto(J.FunctionReturn));
      }
    }

    /** The conditional branches. */
    method BranchIf(o: Instruction, k: nat)
      requires u.BranchesHaveSlots() && k < |u.p.insns| && u.p.insns[k].Branch? && o.insn == u.p.insns[k]
      requires o.delayed == Some(u.p.insns[k + 1])
      modifies emit`output
      ensures emit.output == old(emit.output) + BranchCode(u, k)
    {
      hide Code, PushRegister, CallCode, Operands, IfOpOf, Unit.Delayed, Unit.BranchesHaveSlots;
      var b := o.insn;
      PushOperands(b.cond, b.rs, b.rt);
      Delayed(o, k);
      emit.Insn(J.If(IfOpOf(b.cond, b.rt), J.AtAddress(Wrap(u.p.AddressOf(k) + 4 + 4 * b.offset))));
    }

    /** `pass2` of the branches. */
    method Branch(o: Instruction, k: nat)
      requires u.BranchesHaveSlots() && k < |u.p.insns| && u.p.insns[k].IsBranch() && o.insn == u.p.insns[k]
      requires o.delayed == Some(u.p.insns[k + 1])
      modifies emit`output
      ensures emit.output == old(emit.output) + BranchCode(u, k)
    {
      hide Code, PushRegister, CallCode, Operands, IfOpOf, Method.IndexOf, Unit.Delayed, Unit.BranchesHaveSlots;
      match o.insn
      case Branch(cond, rs, rt, offset) => BranchIf(o, k);
      case Jump(t) =>
        Delayed(o, k);
        JumpTo(t);
      case Jal(t) =>
        Delayed(o, k);
        Call(t, false);
      case Jalr(rs) =>
        emit.PushRegister(u.c, rs);
        Delayed(o, k);
        Call(0, true);
      case Jr(rs) =>
        if rs == R_RA {
          Delayed(o, k);
          emit.Insn(J.Goto(J.FunctionReturn));
        } else {
          emit.PushRegister(u.c, rs);
          Delayed(o, k);
          emit.Insn(J.Goto(J.JumpTable));
        }
    }

    /** A label that the jump table holds on a slot: jump past the instruction and emit it again. */
    method SlotAgain(o: Instruction, k: nat)
      requires u.BranchesHaveSlots() && k < |u.p.insns| && u.p.insns[k].IsBranch() && o.delayed == Some(u.p.insns[k + 1])
      modifies emit`output
      ensures emit.output == old(emit.output) + SlotCopy(u, k)
    {
      hide Code;
      var slot := u.p.AddressOf(k + 1);
      if slot in u.p.table {
        emit.Insn(J.Goto(J.PastSlot(slot)));
        emit.Insn(J.LabelAt(J.AtAddress(slot)));
        Delayed(o, k);
        emit.Insn(J.LabelAt(J.PastSlot(slot)));
      }
    }

    /** What pass0 and pass1 left in the object at `k`. */
    lemma ObjectAt(objects: seq<Instruction>, k: nat)
      requires u.BranchesHaveSlots() && Reflects(objects) && k < |objects|
      ensures k < |u.p.insns| && objects[k].isDelaySlotNop == u.IsSlot(k)
      ensures objects[k].branchTarget || u.p.AddressOf(k) in u.p.table <==> u.HasLabel(k)
      ensures !u.IsSlot(k) ==> objects[k].insn == u.p.insns[k]
      ensures u.p.insns[k].IsBranch() ==> k + 1 < |u.p.insns| && !u.IsSlot(k) && objects[k].delayed == Some(u.p.insns[k + 1])
    {
      assert AttachedAt(u.p.insns, objects, k) && objects[k].branchTarget == u.IsBranchTarget(k);
      SlotsAgree(u, k);
      hide Unit.IsBranchTarget;
    }

    /** One object of a basic block: label, code, and the second copy of a labelled slot. */
    method Insn(objects: seq<Instruction>, k: nat)
      requires u.BranchesHaveSlots() && Reflects(objects) && k < |objects|
      modifies emit`output
      ensures emit.output == old(emit.output) + InsnCode(u, k)
    {
      hide *;
      var o := objects[k];
      ObjectAt(objects, k);
      InsnCodeParts(u, k);
      if !o.isDelaySlotNop {
        Label(o, k);
        if o.insn.IsBranch() {
          Branch(o, k);
          SlotAgain(o, k);
        } else {
          emit.Pass2(u.c, o.insn);
        }
      }
    }

    method Label(o: Instruction, k: nat)
      requires o.branchTarget || u.p.AddressOf(k) in u.p.table <==> u.HasLabel(k)
      modifies emit`output
      ensures emit.output == old(emit.output) + Mark(u, k)
    {
      hide Unit.HasLabel;
      var a := u.p.AddressOf(k);
      if o.branchTarget || a in u.p.table {
        emit.Insn(J.LabelAt(J.AtAddress(a)));
      }
    }

    /** The blocks emit the instructions in order. */
    method Blocks(objects: seq<Instruction>, blocks: seq<Block>)
      requires u.BranchesHaveSlots() && Reflects(objects) && Tiles(blocks, u.Size())
      modifies emit`output
      ensures emit.output == old(emit.output) + Body(u, u.Size())
    {
      hide InsnCode;
      ghost var start := emit.output;
      AllBlocks(blocks);
      for b := 0 to |blocks|
        invariant Reflects(objects)
        invariant BlockEnd(blocks, b) <= u.Size() && emit.output == start + Body(u, BlockEnd(blocks, b))
      {
        BlockBounds(blocks, b, u.Size());
        for k := blocks[b].first to blocks[b].last
          invariant Reflects(objects) && emit.output == start + Body(u, k)
        {
          Insn(objects, k);
        }
      }
    }

    /** The function's blocks, the jump table and the return. */
    method EmitMethod(objects: seq<Instruction>, blocks: seq<Block>)
      requires u.BranchesHaveSlots() && Reflects(objects) && Tiles(blocks, u.Size())
      modifies emit`output
      ensures emit.output == WholeMethod(u, old(emit.output))
    {
      hide Body, PushRegister, Unit.BranchesHaveSlots, Tiles;
      Blocks(objects, blocks);
      if u.Indirect() {
        emit.Insn(J.Goto(J.FunctionReturn));
        emit.Insn(J.LabelAt(J.JumpTable));
        emit.Insn(J.LookupSwitch(u.p.table));
      }
      emit.Insn(J.LabelAt(J.FunctionReturn));
      Return();
    }

    method Return()
      modifies emit`output
      ensures emit.output == old(emit.output) + ReturnCode(u.c, u.size)
    {
      hide PushRegister;
      if u.size == 2 {
        emit.PushRegister(u.c, R_V1);
        emit.Insn(J.PutSavedV1);
      }
      if u.size >= 1 {
        emit.PushRegister(u.c, R_V0);
        emit.Insn(J.Ireturn);
      } else {
        emit.Insn(J.Return);
      }
    }
  }

  /** All passes over a function, after the code that precedes its body. */
  method Translate(u: Unit, prefix: seq<J.Bytecode>) returns (output: seq<J.Bytecode>)
    requires u.BranchesHaveSlots() && u.p.WellPlaced()
    ensures output == WholeMethod(u, prefix)
  {
    hide WholeMethod, Unit.BranchesHaveSlots, Unit.IsBranchTarget, SlotAt;
    var objects := Pass0(u.p.insns);
    var blocks := SplitBlocks(objects, u.Size());
    MarkTargets(u, objects);
    var pass := new Pass2(u);
    pass.emit.output := prefix;
    assert Attached(u.p.insns, objects);
    pass.EmitMethod(objects, blocks);
    output := pass.emit.output;
  }

  lemma SlotsAgree(u: Unit, k: nat)
    requires u.BranchesHaveSlots() && k < |u.p.insns|
    ensures SlotAt(u.p.insns, k) == u.IsSlot(k)
    ensures u.IsSlot(k) ==> !u.p.insns[k].IsBranch()
    ensures u.p.insns[k].IsBranch() ==> k + 1 < |u.p.insns| && !u.p.insns[k + 1].IsBranch()
  {
    if k > 0 && SlotAt(u.p.insns, k - 1) {
      assert u.p.insns[k - 2].IsBranch();
    }
  }

  lemma InsnCodeParts(u: Unit, k: nat)
    requires u.BranchesHaveSlots() && k < |u.p.insns|
    ensures InsnCode(u, k) ==
            if u.IsSlot(k) then []
            else if u.p.insns[k].IsBranch() then Mark(u, k) + BranchCode(u, k) + SlotCopy(u, k)
            else Mark(u, k) + Code(u.c, u.p.insns[k])
  {
    hide Code, BranchCode, Mark;
  }

  function BlockEnd(blocks: seq<Block>, b: nat): nat
    requires b <= |blocks|
  {
    if b == 0 then 0 else blocks[b - 1].last
  }

  lemma {:induction false} BlockBounds(blocks: seq<Block>, b: nat, n: nat)
    requires Tiles(blocks, n) && b < |blocks|
    ensures BlockEnd(blocks, b) == blocks[b].first < blocks[b].last <= n
    ensures b == |blocks| - 1 ==> blocks[b].last == n
    decreases |blocks|
  {
    var front := blocks[..|blocks| - 1];
    if b < |front| {
      BlockBounds(front, b, blocks[|blocks| - 1].first);
    } else if b > 0 {
      BlockBounds(front, b - 1, blocks[|blocks| - 1].first);
    }
  }

  lemma AllBlocks(blocks: seq<Block>)
    ensures forall n :: Tiles(blocks, n) ==> n == BlockEnd(blocks, |blocks|)
  {}
}
