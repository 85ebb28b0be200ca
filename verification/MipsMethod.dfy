/** The reference machine for a whole method: branch delay slots, link register, and calls as opaque effects. */
module MipsMethod {
  import opened Words
  import opened Options
  import opened Mips

  /** A method's instructions from address `base` on, the addresses its register-indirect jumps may reach, and
      the address that its caller left in `$ra`. */
  datatype Method = Method(base: Word, insns: seq<Insn>, table: seq<Word>, link: Word)
  {
    function AddressOf(k: nat): Word {
      Wrap(base + 4 * k)
    }

    /** The position of an address in the method. */
    function IndexOf(a: Word): Option<nat> {
      if base <= a < base + 4 * |insns| && (a - base) % 4 == 0 then Some((a - base) / 4) else None
    }

    predicate WellPlaced() {
      base + 4 * |insns| + 4 < 0x1_0000_0000 && !(base <= link <= base + 4 * |insns|)
    }
  }

  /** Where control goes next: an address, or a callee that is due to return to `back`. */
  datatype Target = At(address: Word) | Call(callee: Word, indirect: bool, back: Word)

  datatype Machine = Machine(pc: Target, npc: Target, m: State)

  /** A callee's effect: what it leaves in the registers a callee may change, which of the result registers
      mean something, the memory, and the words of it that only MIPS code wrote (return addresses and saved
      registers). */
  datatype Outcome = Outcome(regs: RegisterFile, known: set<Register>, mem: seq<Byte>, saved: set<nat>)

  /** The registers that a callee need not preserve: `$at`, `$v0` to `$t7`, `$t8`, `$t9`, HI and LO. */
  predicate Clobbered(r: nat) {
    1 <= r <= 15 || r == 24 || r == 25 || r == R_HI || r == R_LO
  }

  /** The callees: which registers each is passed, how many results it has, and what it does. */
  datatype Callees = Callees(passed: Word -> seq<Register>, size: Word -> nat,
                             effect: (Word, bool, seq<Word>, seq<Byte>) -> Option<Outcome>)
  {
    /** Calls through the call table pass every argument register and return two results. */
    function Passed(callee: Word, indirect: bool): seq<Register> {
      if indirect then [R_SP, R_A0, R_A1, R_A2, R_A3] else passed(callee)
    }

    function Size(callee: Word, indirect: bool): nat {
      if indirect then 2 else size(callee)
    }
  }

  function Arguments(regs: seq<Register>, m: State): (r: seq<Word>)
    requires forall i :: 0 <= i < |regs| ==> regs[i] < 34
    ensures |r| == |regs|
  {
    seq(|regs|, i requires 0 <= i < |regs| => m.Reg(regs[i]))
  }

  predicate ArgumentRegisters(regs: seq<Register>) {
    forall i :: 0 <= i < |regs| ==> regs[i] in {R_SP, R_A0, R_A1, R_A2, R_A3}
  }

  /** The machine after a callee. */
  function AfterCall(o: Outcome, m: State): State {
    State(seq(34, r requires 0 <= r < 34 => if Clobbered(r) then o.regs[r] else m.regs[r]), o.mem)
  }

  /** The target of the branch at `a`, decided when the branch executes. */
  function Destination(p: Method, a: Word, insn: Insn, m: State): Target
    requires insn.IsBranch()
  {
    match insn
    case Branch(cond, rs, rt, offset) =>
      At(if Taken(cond, m.Reg(rs), m.Reg(rt)) then Wrap(a + 4 + 4 * offset) else Wrap(a + 8))
    case Jump(t) => if p.IndexOf(t).Some? then At(t) else Call(t, false, p.link)
    case Jal(t) => Call(t, false, Wrap(a + 8))
    case Jalr(rs) => Call(m.Reg(rs), true, Wrap(a + 8))
    case Jr(rs) => At(m.Reg(rs))
  }

  function Linked(a: Word, insn: Insn, m: State): State {
    if insn.Jal? || insn.Jalr? then m.Set(R_RA, Wrap(a + 8)) else m
  }

  /** One instruction, or one callee.  A branch in a delay slot is undefined; so is leaving the method other
      than by a call. */
  function Step(p: Method, env: Callees, s: Machine): Option<Machine> {
    match s.pc
    case Call(callee, indirect, _) =>
      var regs := env.Passed(callee, indirect);
      if !ArgumentRegisters(regs) then None else
      var o := env.effect(callee, indirect, Arguments(regs, s.m), s.m.mem);
      if o == None then None
      else Some(Machine(At(s.m.Reg(R_RA)), At(Wrap(s.m.Reg(R_RA) + 4)), AfterCall(o.value, s.m)))
    case At(a) =>
      var k := p.IndexOf(a);
      if k == None then None else
      var insn := p.insns[k.value];
      if insn.IsBranch() then
        if s.npc != At(Wrap(a + 4)) then None
        else Some(Machine(s.npc, Destination(p, a, insn, s.m), Linked(a, insn, s.m)))
      else
        var m := Execute(insn, s.m);
        if m == None then None
        else Some(Machine(s.npc, if s.npc.At? then At(Wrap(s.npc.address + 4)) else s.npc, m.value))
  }

  /** `n` steps. */
  function Run(p: Method, env: Callees, s: Machine, n: nat): Option<Machine>
    decreases n
  {
    if n == 0 then Some(s) else
    var next := Step(p, env, s);
    if next == None then None else Run(p, env, next.value, n - 1)
  }

  /** The machine as it is about to execute the instruction at `a`. */
  function Start(a: Word, m: State): Machine {
    Machine(At(a), At(Wrap(a + 4)), m)
  }
}
