/** The machine of one emitted Java method: labels, branches, calls and the statics of CRunTime. */
module JvmMethod {
  import opened Words
  import opened Options
  import opened Jvm
  import CRunTime

  /** The effect of a call: the int it returns, if it does, and the static `saved_v1` and memory it leaves. */
  datatype JavaOutcome = JavaOutcome(value: Option<Word>, savedV1: Word, memory: CRunTime.Memory)

  type JavaCallees = (Word, bool, seq<Word>, CRunTime.Memory, Word) -> Option<JavaOutcome>

  datatype Frame =
    | Running(pc: nat, st: State, savedV1: Word)
    | Returned(value: Option<Word>, savedV1: Word, memory: CRunTime.Memory)

  /** The index of a label, or the end of the code when it has none. */
  function Position(code: seq<Bytecode>, name: Label): (r: nat)
    ensures r <= |code| && (r < |code| ==> code[r] == LabelAt(name))
    ensures forall i :: 0 <= i < r ==> code[i] != LabelAt(name)
  {
    if code == [] || code[0] == LabelAt(name) then 0 else 1 + Position(code[1..], name)
  }

  predicate Holds(op: IfOp, a: Word) {
    match op
    case IfEq => a == 0
    case IfNe => a != 0
    case IfGe => Signed(a) >= 0
    case IfGt => Signed(a) > 0
    case IfLe => Signed(a) <= 0
    case IfLt => Signed(a) < 0
    case _ => false
  }

  predicate TakesTwo(op: IfOp) {
    op == IfIcmpEq || op == IfIcmpNe
  }

  /** The `n` topmost ints in the order they were pushed, and what lies below. */
  function PopInts(s: Stack, n: nat): (r: Option<(seq<Word>, Stack)>)
    ensures r.Some? ==> |r.value.0| == n
  {
    if n == 0 then Some(([], s))
    else if !s.On? || !s.top.Int? then None
    else
      var rest := PopInts(s.below, n - 1);
      if rest == None then None else Some((rest.value.0 + [s.top.w], rest.value.1))
  }

  /** Calls: a static method named by its address, or the call table, whose first argument is the address. */
  function CallMethod(env: JavaCallees, target: Word, indirect: bool, returnsInt: bool, args: seq<Word>, below: Stack, f: Frame): Option<Frame>
    requires f.Running?
  {
    var o := env(target, indirect, args, f.st.memory, f.savedV1);
    if o == None || o.value.value.Some? != returnsInt then None
    else
      var s := if o.value.value.Some? then On(Int(o.value.value.value), below) else below;
      Some(Running(f.pc + 1, f.st.(stack := s, memory := o.value.memory), o.value.savedV1))
  }

  function Goto(code: seq<Bytecode>, name: Label, st: State, v1: Word): Option<Frame> {
    Some(Running(Position(code, name), st, v1))
  }

  function IfStep(code: seq<Bytecode>, op: IfOp, name: Label, f: Frame): Option<Frame>
    requires f.Running?
  {
    var st := f.st;
    if TakesTwo(op) then
      if !st.HasInts() then None
      else
        var below := st.(stack := st.stack.below.below);
        if (st.stack.below.top.w == st.stack.top.w) == (op == IfIcmpEq) then Goto(code, name, below, f.savedV1)
        else Some(Running(f.pc + 1, below, f.savedV1))
    else if !st.HasInt() then None
    else
      var below := st.(stack := st.stack.below);
      if Holds(op, st.stack.top.w) then Goto(code, name, below, f.savedV1)
      else Some(Running(f.pc + 1, below, f.savedV1))
  }

  /** The instructions that `Jvm.Step` leaves out. */
  function ControlStep(code: seq<Bytecode>, env: JavaCallees, b: Bytecode, f: Frame): Option<Frame>
    requires f.Running?
  {
    var Running(pc, st, v1) := f;
    match b
    case LabelAt(_) => Some(Running(pc + 1, st, v1))
    case Goto(name) => Goto(code, name, st, v1)
    case If(op, name) => IfStep(code, op, name, f)
    case LookupSwitch(table) =>
      if !st.HasInt() then None
      else
        Goto(code, if st.stack.top.w in table then AtAddress(st.stack.top.w) else FunctionReturn,
             st.(stack := st.stack.below), v1)
    case InvokeMethod(target, arity, returnsInt) =>
      var args := PopInts(st.stack, arity);
      if args == None then None else CallMethod(env, target, false, returnsInt, args.value.0, args.value.1, f)
    case InvokeTable =>
      var args := PopInts(st.stack, 6);
      if args == None then None else CallMethod(env, args.value.0[0], true, true, args.value.0[1..], args.value.1, f)
    case GetMemory => Some(Running(pc + 1, st.Push(MemoryRef), v1))
    case GetSavedV1 => Some(Running(pc + 1, st.Push(Int(v1)), v1))
    case PutSavedV1 =>
      if st.HasInt() then Some(Running(pc + 1, st.(stack := st.stack.below), st.stack.top.w)) else None
    case Ireturn => if st.HasInt() then Some(Returned(Some(st.stack.top.w), v1, st.memory)) else None
    case Return => Some(Returned(None, v1, st.memory))
    case _ => None
  }

  /** One instruction of the method. */
  function Advance(code: seq<Bytecode>, env: JavaCallees, f: Frame): Option<Frame> {
    if f.Returned? || f.pc >= |code| then None
    else if code[f.pc].IsControl() then ControlStep(code, env, code[f.pc], f)
    else
      var st := Step(code[f.pc], f.st);
      if st == None then None else Some(Running(f.pc + 1, st.value, f.savedV1))
  }

  function RunFrame(code: seq<Bytecode>, env: JavaCallees, f: Frame, n: nat): Option<Frame>
    decreases n
  {
    if n == 0 then Some(f) else
    var g := Advance(code, env, f);
    if g == None then None else RunFrame(code, env, g.value, n - 1)
  }

  ghost predicate Reaches(code: seq<Bytecode>, env: JavaCallees, f: Frame, g: Frame) {
    exists n: nat :: RunFrame(code, env, f, n) == Some(g)
  }

  // ----- composing runs -----

  lemma {:induction false} RunFrameAdd(code: seq<Bytecode>, env: JavaCallees, f: Frame, n: nat, k: nat)
    requires RunFrame(code, env, f, n).Some?
    ensures RunFrame(code, env, f, n + k) == RunFrame(code, env, RunFrame(code, env, f, n).value, k)
    decreases n
  {
    hide Advance;
    if n != 0 {
      RunFrameAdd(code, env, Advance(code, env, f).value, n - 1, k);
    }
  }

  lemma ReachesSelf(code: seq<Bytecode>, env: JavaCallees, f: Frame)
    ensures Reaches(code, env, f, f)
  {
    assert RunFrame(code, env, f, 0) == Some(f);
  }

  lemma ReachesThen(code: seq<Bytecode>, env: JavaCallees, f: Frame, g: Frame, h: Frame)
    requires Reaches(code, env, f, g) && Reaches(code, env, g, h)
    ensures Reaches(code, env, f, h)
  {
    hide RunFrame;
    var n: nat :| RunFrame(code, env, f, n) == Some(g);
    var k: nat :| RunFrame(code, env, g, k) == Some(h);
    RunFrameAdd(code, env, f, n, k);
  }

  lemma ReachesStep(code: seq<Bytecode>, env: JavaCallees, f: Frame, g: Frame)
    requires Advance(code, env, f) == Some(g)
    ensures Reaches(code, env, f, g)
  {
    hide Advance;
    assert RunFrame(code, env, g, 0) == Some(g);
    assert RunFrame(code, env, f, 1) == Some(g);
  }

  /** `part` stands at index `at` of the code. */
  ghost predicate Stands(code: seq<Bytecode>, at: nat, part: seq<Bytecode>) {
    at + |part| <= |code| && code[at..at + |part|] == part
  }

  /** Straight-line code runs inside a method as it runs by itself. */
  lemma {:induction false} RunInside(code: seq<Bytecode>, env: JavaCallees, at: nat, part: seq<Bytecode>, st: State, v1: Word)
    requires Stands(code, at, part) && Run(part, st).Some?
    ensures Reaches(code, env, Running(at, st, v1), Running(at + |part|, Run(part, st).value, v1))
    decreases |part|
  {
    if part == [] {
      ReachesSelf(code, env, Running(at, st, v1));
    } else {
      StandsTail(code, at, part);
      RunsHead(part, st);
      var next := Step(part[0], st).value;
      hide Step, Run, Stands;
      ReachesStep(code, env, Running(at, st, v1), Running(at + 1, next, v1));
      RunInside(code, env, at + 1, part[1..], next, v1);
      ReachesThen(code, env, Running(at, st, v1), Running(at + 1, next, v1),
                  Running(at + |part|, Run(part, st).value, v1));
    }
  }

  lemma StandsTail(code: seq<Bytecode>, at: nat, part: seq<Bytecode>)
    requires Stands(code, at, part) && part != []
    ensures at < |code| && code[at] == part[0] && Stands(code, at + 1, part[1..])
  {
    assert code[at..at + |part|][0] == code[at];
    assert code[at..at + |part|][1..] == code[at + 1..at + |part|];
  }

  lemma RunsHead(part: seq<Bytecode>, st: State)
    requires part != [] && Run(part, st).Some?
    ensures Step(part[0], st).Some? && !part[0].IsControl()
    ensures Run(part, st) == Run(part[1..], Step(part[0], st).value)
  {
    ControlHasNoStep(part[0], st);
    hide Step;
  }

  lemma ControlHasNoStep(b: Bytecode, st: State)
    ensures b.IsControl() ==> Step(b, st) == None
  {}

  lemma StandsPart(code: seq<Bytecode>, at: nat, a: seq<Bytecode>, b: seq<Bytecode>, rest: seq<Bytecode>)
    requires Stands(code, at, a + b + rest)
    ensures Stands(code, at + |a|, b)
  {
    var all := a + b + rest;
    assert code[at..at + |all|][|a|..|a| + |b|] == code[at + |a|..at + |a| + |b|];
    assert all[|a|..|a| + |b|] == b;
  }
}
