/** The method theorem: branches with their delay slots, calls, the jump table and the return of an emitted
    method follow the MIPS method step for step. */
module ControlFlow {
  import opened Words
  import opened Options
  import opened BigEndian
  import opened Mips
  import opened Translation
  import opened StraightLine
  import opened Correctness
  import opened HiddenValues
  import opened MipsMethod
  import opened MethodCode
  import opened MethodLayout
  import J = Jvm
  import V = JvmMethod
  import CRunTime

  // ----- which methods -----

  predicate InMethod(u: Unit, a: Word) {
    u.p.IndexOf(a).Some? && !u.IsSlot(u.p.IndexOf(a).value)
  }

  /** What is asked of each instruction: supported if it is not a branch; a branch reads no `$ra` but to
      return, and leads to an instruction of the method that is not a delay slot. */
  predicate Admissible(u: Unit, k: nat)
    requires k < |u.p.insns|
  {
    match u.p.insns[k]
    case Branch(cond, rs, rt, offset) =>
      rs != R_RA && (ComparesTwo(cond, rt) ==> rt != R_RA) && InMethod(u, Wrap(u.p.AddressOf(k) + 4 + 4 * offset))
    case Jump(t) => u.p.IndexOf(t).Some? ==> InMethod(u, t)
    case Jal(_) => true
    case Jalr(rs) => rs != R_RA
    case Jr(_) => true
    case _ => Encodable(u.p.insns[k]) && Supported(u.c, u.p.insns[k])
  }

  /** The last instruction of a function is emitted only as the slot of a branch. */
  predicate IsEmitted(u: Unit, k: nat)
    requires k < |u.p.insns|
  {
    k < u.Size() || u.IsSlot(k)
  }

  /** The methods that are translated faithfully. */
  ghost predicate Translatable(u: Unit) {
    u.p.WellPlaced() && u.BranchesHaveSlots() &&
    (forall k: nat :: k < |u.p.insns| && IsEmitted(u, k) ==> Admissible(u, k)) &&
    (forall a :: a in u.p.table ==> u.p.IndexOf(a).Some?) &&
    (forall callee :: u.env.size(callee) <= 2)
  }

  /** The registers of an instruction have locals. */
  ghost predicate Covered(u: Unit, k: nat)
    requires k < |u.p.insns|
  {
    Covers(u.c, Compiled(u.p, u.p.insns[k]))
  }

  ghost predicate InsnOk(u: Unit, k: nat)
    requires k < |u.p.insns|
  {
    Covered(u, k) && Admissible(u, k)
  }

  predicate ResultsHaveLocals(u: Unit) {
    u.size <= 2 && (u.size >= 1 ==> u.c.Allocated(R_V0)) && (u.size == 2 ==> u.c.Allocated(R_V1))
  }

  ghost predicate WellFormed(u: Unit) {
    ValidContext(u.c) && Translatable(u) && ResultsHaveLocals(u) &&
    forall k: nat :: k < |u.p.insns| && IsEmitted(u, k) ==> Covered(u, k)
  }

  lemma WellFormedAt(u: Unit, k: nat)
    requires WellFormed(u) && k < |u.p.insns| && IsEmitted(u, k)
    ensures InsnOk(u, k)
  {
    hide ValidContext, Admissible, Covered;
  }

  /** An instruction that is not a jump out of the method is compiled as it stands. */
  lemma CoversItself(u: Unit, k: nat)
    requires k < |u.p.insns| && InsnOk(u, k) && !u.p.insns[k].Jump?
    ensures Covers(u.c, u.p.insns[k])
  {
    hide Covers, Admissible;
  }

  // ----- which runs -----

  /** A method and the translated callees of its code. */
  datatype Emitted = Emitted(u: Unit, prefix: seq<J.Bytecode>, java: V.JavaCallees)
  {
    function Code(): seq<J.Bytecode>
      requires u.BranchesHaveSlots()
    {
      WholeMethod(u, prefix)
    }
  }

  /** The result registers whose values mean something. */
  function KnownResults(o: Outcome, size: nat): set<nat> {
    (if size >= 1 && R_V0 in o.known then {R_V0} else {}) + (if size == 2 && R_V1 in o.known then {R_V1} else {})
  }

  /** A Java callee leaves the results and the memory of the MIPS callee, apart from what only MIPS code wrote. */
  ghost predicate ReturnsAs(size: nat, o: Outcome, jo: V.JavaOutcome) {
    Holds(jo.memory, o.mem, o.saved) && jo.value.Some? == (size >= 1) &&
    (R_V0 in KnownResults(o, size) ==> jo.value == Some(o.regs[R_V0])) &&
    (R_V1 in KnownResults(o, size) ==> jo.savedV1 == o.regs[R_V1])
  }

  /** On the arguments and the memory that it is given, a translated callee does what the callee does. */
  ghost predicate CallAgrees(x: Emitted, callee: Word, indirect: bool, args: seq<Word>, words: CRunTime.Memory, v1: Word) {
    var o := x.u.env.effect(callee, indirect, args, Bytes(words));
    o.Some? ==>
      var jo := x.java(callee, indirect, args, words, v1);
      jo.Some? && ReturnsAs(x.u.env.Size(callee, indirect), o.value, jo.value)
  }

  ghost predicate CalleesAgree(x: Emitted) {
    forall callee, indirect, args, words, v1 :: CallAgrees(x, callee, indirect, args, words, v1)
  }

  // ----- callees and hidden values -----

  ghost predicate SameArguments(regs: seq<Register>, hid: Hidden, args: seq<Word>, args': seq<Word>) {
    |args'| == |args| == |regs| && forall i :: 0 <= i < |regs| && Known(hid, regs[i]) ==> args'[i] == args[i]
  }

  /** The effect `p` is the effect `o`, apart from hidden words and words that only MIPS code wrote. */
  ghost predicate SameEffect(o: Option<Outcome>, p: Option<Outcome>, words: set<nat>) {
    o.Some? ==>
      p.Some? && o.value.known <= p.value.known && (forall r :: r in o.value.known && r < 34 ==> p.value.regs[r] == o.value.regs[r]) &&
      p.value.saved <= words + o.value.saved && AgreeOutside(words + o.value.saved, o.value.mem, p.value.mem)
  }

  /** What a callee does here does not depend on the hidden words and on hidden arguments. */
  ghost predicate Insensitive(env: Callees, callee: Word, indirect: bool, m: State, hid: Hidden)
    requires ArgumentRegisters(env.Passed(callee, indirect))
  {
    var regs := env.Passed(callee, indirect);
    var args := Arguments(regs, m);
    forall args', bytes :: SameArguments(regs, hid, args, args') && AgreeOutside(hid.words, m.mem, bytes) ==>
      SameEffect(env.effect(callee, indirect, args, m.mem), env.effect(callee, indirect, args', bytes), hid.words)
  }

  /** Where nothing is hidden, every callee is insensitive. */
  lemma NothingHidden(env: Callees, callee: Word, indirect: bool, m: State)
    requires ArgumentRegisters(env.Passed(callee, indirect))
    ensures Insensitive(env, callee, indirect, m, Hidden({}, {}))
  {
    hide Callees.Passed;
    var regs := env.Passed(callee, indirect);
    var args := Arguments(regs, m);
    forall args', bytes | SameArguments(regs, Hidden({}, {}), args, args') && AgreeOutside({}, m.mem, bytes)
      ensures SameEffect(env.effect(callee, indirect, args, m.mem), env.effect(callee, indirect, args', bytes), {})
    {
      assert args == args' && m.mem == bytes;
    }
  }

  /** A callee that returns the word at address zero, and its translation. */
  function FirstWord(bytes: seq<Byte>): Option<Outcome> {
    if |bytes| < 4 then None
    else Some(Outcome(seq(34, r => if r == R_V0 then Join(bytes[0], bytes[1], bytes[2], bytes[3]) else 0), {R_V0}, bytes, {}))
  }

  function FirstElement(words: CRunTime.Memory, v1: Word): Option<V.JavaOutcome> {
    if words == [] then None else Some(V.JavaOutcome(Some(words[0]), v1, words))
  }

  /** A callee whose result depends on memory agrees with its translation, and is insensitive to every hidden word
      that it does not read. */
  lemma MemoryReaderAgrees(x: Emitted, hid: Hidden, m: State, callee: Word, indirect: bool)
    requires x.u.env.effect == ((callee: Word, indirect: bool, args: seq<Word>, bytes: seq<Byte>) => FirstWord(bytes))
    requires x.java == ((callee: Word, indirect: bool, args: seq<Word>, words: CRunTime.Memory, v1: Word) => FirstElement(words, v1))
    requires forall callee :: x.u.env.size(callee) == 1
    ensures CalleesAgree(x)
    ensures ArgumentRegisters(x.u.env.Passed(callee, indirect)) && 0 !in hid.words ==> Insensitive(x.u.env, callee, indirect, m, hid)
  {
    hide FirstWord, FirstElement, Holds, Bytes, Callees.Passed, SameArguments, SameEffect, AgreeOutside;
    forall callee, indirect, args, words, v1 ensures CallAgrees(x, callee, indirect, args, words, v1) {
      FirstWordReturns(words, v1, x.u.env.Size(callee, indirect));
    }
    if ArgumentRegisters(x.u.env.Passed(callee, indirect)) && 0 !in hid.words {
      forall args', bytes | SameArguments(x.u.env.Passed(callee, indirect), hid, Arguments(x.u.env.Passed(callee, indirect), m), args') &&
                            AgreeOutside(hid.words, m.mem, bytes)
        ensures SameEffect(FirstWord(m.mem), FirstWord(bytes), hid.words)
      {
        FirstWordSame(m.mem, bytes, hid.words);
      }
    }
  }

  lemma FirstWordReturns(words: CRunTime.Memory, v1: Word, size: nat)
    requires size >= 1
    ensures var o := FirstWord(Bytes(words));
            o.Some? ==> FirstElement(words, v1).Some? && ReturnsAs(size, o.value, FirstElement(words, v1).value)
  {
    hide Bytes, Holds, FirstWord;
    FirstBytes(words);
    HoldsIffBytes(words, Bytes(words));
    FirstWordIs(Bytes(words));
  }

  lemma FirstBytes(words: CRunTime.Memory)
    ensures |Bytes(words)| == 4 * |words|
    ensures words != [] ==> Join(Bytes(words)[0], Bytes(words)[1], Bytes(words)[2], Bytes(words)[3]) == words[0]
  {
    hide Bytes, Join, ByteOf;
    if words != [] {
      BytesAt(words, 0);
      JoinBytes(words[0]);
      assert forall k :: 0 <= k < 4 ==> Bytes(words)[4 * 0 + k] == Bytes(words)[k];
    }
  }

  lemma FirstWordIs(bytes: seq<Byte>)
    ensures FirstWord(bytes).Some? <==> |bytes| >= 4
    ensures |bytes| >= 4 ==>
              var o := FirstWord(bytes).value;
              o.regs[R_V0] == Join(bytes[0], bytes[1], bytes[2], bytes[3]) && R_V1 !in o.known && o.mem == bytes && o.saved == {}
  {
    hide Join;
  }

  lemma FirstWordSame(m: seq<Byte>, z: seq<Byte>, hidden: set<nat>)
    requires AgreeOutside(hidden, m, z) && 0 !in hidden
    ensures SameEffect(FirstWord(m), FirstWord(z), hidden)
  {
    if |m| >= 4 {
      assert m[0] == z[0] && m[1] == z[1] && m[2] == z[2] && m[3] == z[3];
    }
    hide Join;
  }

  function AllClobbered(): set<nat> {
    set r: nat | r < 34 && Clobbered(r)
  }

  /** After a call: the callee's own saved words, and the registers it may change, apart from its results. */
  function HiddenCall(o: Outcome, size: nat, hid: Hidden): Hidden {
    Hidden(hid.words + o.saved, (hid.regs + AllClobbered()) - KnownResults(o, size))
  }

  /** A branch decides on known values. */
  predicate DecidesOnKnown(insn: Insn, hid: Hidden) {
    match insn
    case Branch(cond, rs, rt, _) => Known(hid, rs) && (ComparesTwo(cond, rt) ==> Known(hid, rt))
    case Jalr(rs) => Known(hid, rs)
    case Jr(rs) => rs == R_RA || Known(hid, rs)
    case _ => true
  }

  /** The steps that the translation follows: instructions on known values, with accesses as in the
      straight-line theorem; `jr $ra` returns to the caller; other indirect jumps go to the jump table's
      addresses or to the caller; a callee does not depend on what is hidden and returns to where it was called
      from; an instruction that is not emitted is not executed. */
  ghost predicate Honest(u: Unit, s: Machine, hid: Hidden) {
    match s.pc
    case Call(callee, indirect, back) =>
      s.m.Reg(R_RA) == back &&
      (ArgumentRegisters(u.env.Passed(callee, indirect)) ==> Insensitive(u.env, callee, indirect, s.m, hid))
    case At(a) =>
      var k := u.p.IndexOf(a);
      k.Some? ==>
        var insn := u.p.insns[k.value];
        IsEmitted(u, k.value) && (if insn.IsBranch() then DecidesOnKnown(insn, hid) else Allowed(u.c, insn, s.m, hid)) &&
        (insn.Jr? ==> s.m.Reg(insn.rs) == u.p.link || (insn.rs != R_RA && s.m.Reg(insn.rs) in u.p.table))
  }

  /** What only the MIPS machine knows after a step. */
  function HiddenStep(u: Unit, s: Machine, hid: Hidden): Hidden {
    match s.pc
    case Call(callee, indirect, _) =>
      var regs := u.env.Passed(callee, indirect);
      if !ArgumentRegisters(regs) then hid else
      var o := u.env.effect(callee, indirect, Arguments(regs, s.m), s.m.mem);
      if o.Some? then HiddenCall(o.value, u.env.Size(callee, indirect), hid) else hid
    case At(a) =>
      var k := u.p.IndexOf(a);
      if k.Some? && !u.p.insns[k.value].IsBranch() then HiddenAfter(u.c, u.p.insns[k.value], s.m, hid) else hid
  }

  ghost predicate HonestRun(u: Unit, s: Machine, hid: Hidden, n: nat)
    decreases n
  {
    n == 0 ||
    (Honest(u, s, hid) &&
     (Step(u.p, u.env, s).Some? ==> HonestRun(u, Step(u.p, u.env, s).value, HiddenStep(u, s, hid), n - 1)))
  }

  function HiddenRun(u: Unit, s: Machine, hid: Hidden, n: nat): Hidden
    decreases n
  {
    if n == 0 || Step(u.p, u.env, s) == None then hid
    else HiddenRun(u, Step(u.p, u.env, s).value, HiddenStep(u, s, hid), n - 1)
  }

  // ----- the relation at instruction boundaries -----

  predicate Reachable(u: Unit, a: Word) {
    a == u.p.link || (u.p.IndexOf(a).Some? && IsEmitted(u, u.p.IndexOf(a).value))
  }

  /** Where the emitted code continues for an address. */
  function Entry(x: Emitted, a: Word): nat
    requires x.u.BranchesHaveSlots()
  {
    var k := x.u.p.IndexOf(a);
    if k == None then V.Position(x.Code(), J.FunctionReturn)
    else if x.u.IsSlot(k.value) then SlotEntry(x.u, x.prefix, k.value - 1)
    else Offset(x.u, x.prefix, k.value)
  }

  /** The Java frame stands at an address with the MIPS state. */
  ghost predicate Landed(x: Emitted, f: V.Frame, a: Word, m: State, hid: Hidden)
    requires x.u.BranchesHaveSlots()
  {
    f.Running? && f.st.stack == J.Empty && Seen(x.u.c, hid, m, f.st) && f.pc == Entry(x, a) &&
    (x.u.p.IndexOf(a).Some? && x.u.IsSlot(x.u.p.IndexOf(a).value) ==> a in x.u.p.table)
  }

  /** The method returned with the MIPS results, as far as they are known, and its memory, apart from the hidden
      words. */
  ghost predicate ReturnedWith(x: Emitted, f: V.Frame, m: State, hid: Hidden) {
    f.Returned? && f.value.Some? == (x.u.size >= 1) && (x.u.size >= 1 && Known(hid, R_V0) ==> f.value == Some(m.Reg(R_V0))) &&
    (x.u.size == 2 && Known(hid, R_V1) ==> f.savedV1 == m.Reg(R_V1)) && Holds(f.memory, m.mem, hid.words)
  }

  ghost predicate Finishes(x: Emitted, f: V.Frame, m: State, hid: Hidden)
    requires x.u.BranchesHaveSlots()
  {
    exists g :: V.Reaches(x.Code(), x.java, f, g) && ReturnedWith(x, g, m, hid)
  }

  ghost predicate Ready(x: Emitted) {
    WellFormed(x.u) && NoLabels(x.prefix)
  }

  // ----- pieces of an instruction's code -----

  /** The code of an instruction: its mark, its main part, and the second copy of its slot. */
  lemma Parts(x: Emitted, k: nat)
    requires x.u.BranchesHaveSlots() && k < x.u.Size() && !x.u.IsSlot(k)
    ensures var at := Offset(x.u, x.prefix, k);
            V.Stands(x.Code(), at, Mark(x.u, k)) && V.Stands(x.Code(), at + |Mark(x.u, k)|, Main(x.u, k)) &&
            V.Stands(x.Code(), at + |Mark(x.u, k)| + |Main(x.u, k)|, SlotCopy(x.u, k)) &&
            Offset(x.u, x.prefix, k + 1) == at + |Mark(x.u, k)| + |Main(x.u, k)| + |SlotCopy(x.u, k)|
  {
    hide *;
    InsnStands(x.u, x.prefix, k);
    CodeIs(x);
    InsnShape(x.u, k);
    SplitStands(x.Code(), Offset(x.u, x.prefix, k), Mark(x.u, k), Main(x.u, k), SlotCopy(x.u, k));
  }

  lemma InsnShape(u: Unit, k: nat)
    requires u.BranchesHaveSlots() && k < u.Size() && !u.IsSlot(k)
    ensures k < |u.p.insns|
    ensures InsnCode(u, k) == Mark(u, k) + Main(u, k) + SlotCopy(u, k)
  {
    hide Mark, Main, SlotCopy;
  }

  lemma SplitStands(code: seq<J.Bytecode>, at: nat, a: seq<J.Bytecode>, b: seq<J.Bytecode>, d: seq<J.Bytecode>)
    requires V.Stands(code, at, a + b + d)
    ensures V.Stands(code, at, a) && V.Stands(code, at + |a|, b) && V.Stands(code, at + |a| + |b|, d)
  {
    V.StandsPart(code, at, [], a, b + d) by { assert [] + a + (b + d) == a + b + d; }
    V.StandsPart(code, at, a, b, d);
    V.StandsPart(code, at, a + b, d, []) by { assert a + b + d + [] == a + b + d; }
  }

  lemma StandsAt(code: seq<J.Bytecode>, at: nat, b: J.Bytecode)
    requires V.Stands(code, at, [b])
    ensures at < |code| && code[at] == b
  {
    assert code[at..at + 1][0] == code[at];
  }

  /** A control instruction is one step of the frame. */
  lemma ControlReaches(x: Emitted, b: J.Bytecode, f: V.Frame, g: V.Frame)
    requires x.u.BranchesHaveSlots() && f.Running? && f.pc < |x.Code()| && x.Code()[f.pc] == b && b.IsControl()
    requires V.ControlStep(x.Code(), x.java, b, f) == Some(g)
    ensures V.Reaches(x.Code(), x.java, f, g)
  {
    hide V.ControlStep, WholeMethod, J.Step;
    V.ReachesStep(x.Code(), x.java, f, g);
  }

  lemma GotoReaches(x: Emitted, at: nat, l: J.Label, st: J.State, v1: Word)
    requires x.u.BranchesHaveSlots() && V.Stands(x.Code(), at, [J.Goto(l)])
    ensures V.Reaches(x.Code(), x.java, V.Running(at, st, v1), V.Running(V.Position(x.Code(), l), st, v1))
  {
    StandsAt(x.Code(), at, J.Goto(l));
    hide WholeMethod;
    ControlReaches(x, J.Goto(l), V.Running(at, st, v1), V.Running(V.Position(x.Code(), l), st, v1));
  }

  lemma LabelReaches(x: Emitted, at: nat, l: J.Label, st: J.State, v1: Word)
    requires x.u.BranchesHaveSlots() && at < |x.Code()| && x.Code()[at] == J.LabelAt(l)
    ensures V.Reaches(x.Code(), x.java, V.Running(at, st, v1), V.Running(at + 1, st, v1))
  {
    hide WholeMethod;
    ControlReaches(x, J.LabelAt(l), V.Running(at, st, v1), V.Running(at + 1, st, v1));
  }

  lemma MarkReaches(x: Emitted, k: nat, st: J.State, v1: Word)
    requires x.u.BranchesHaveSlots() && k < x.u.Size() && !x.u.IsSlot(k)
    ensures var at := Offset(x.u, x.prefix, k);
            V.Reaches(x.Code(), x.java, V.Running(at, st, v1), V.Running(at + |Mark(x.u, k)|, st, v1))
  {
    Parts(x, k);
    var at := Offset(x.u, x.prefix, k);
    hide WholeMethod, Main, SlotCopy, Offset, V.Stands, Unit.BranchesHaveSlots;
    if x.u.HasLabel(k) {
      var l := J.AtAddress(x.u.p.AddressOf(k));
      StandsAt(x.Code(), at, J.LabelAt(l));
      LabelReaches(x, at, l, st, v1);
    } else {
      V.ReachesSelf(x.Code(), x.java, V.Running(at, st, v1));
    }
  }

  /** Code that runs by itself, at its place in the method. */
  lemma PartReaches(x: Emitted, at: nat, part: seq<J.Bytecode>, st: J.State, end: J.State, v1: Word)
    requires x.u.BranchesHaveSlots() && V.Stands(x.Code(), at, part) && Runs(part, st, end)
    ensures V.Reaches(x.Code(), x.java, V.Running(at, st, v1), V.Running(at + |part|, end, v1))
  {
    hide WholeMethod, J.Run, V.Stands;
    V.RunInside(x.Code(), x.java, at, part, st, v1);
  }

  /** An instruction's code inside the method. */
  lemma InsnReaches(x: Emitted, at: nat, insn: Insn, hid: Hidden, m: State, st: J.State, v1: Word, m': State) returns (end: J.State)
    requires x.u.BranchesHaveSlots() && ValidContext(x.u.c) && Seen(x.u.c, hid, m, st)
    requires !insn.IsBranch() && V.Stands(x.Code(), at, Code(x.u.c, insn))
    requires Encodable(insn) && Supported(x.u.c, insn) && Covers(x.u.c, insn) && Allowed(x.u.c, insn, m, hid)
    requires Execute(insn, m) == Some(m')
    ensures V.Reaches(x.Code(), x.java, V.Running(at, st, v1), V.Running(at + |Code(x.u.c, insn)|, end, v1))
    ensures end.stack == st.stack && Seen(x.u.c, HiddenAfter(x.u.c, insn, m, hid), m', end)
  {
    hide WholeMethod, Follows, V.Stands, Seen, Code, Execute, Supported, Covers, Allowed, HiddenAfter, Encodable,
         Unit.BranchesHaveSlots, ValidContext, V.Reaches;
    InsnFollows(x.u.c, hid, m, st, insn, m');
    end := EndOf(x.u.c, Code(x.u.c, insn), st, m', HiddenAfter(x.u.c, insn, m, hid));
    PartReaches(x, at, Code(x.u.c, insn), st, end, v1);
  }

  lemma EndOf(c: Context, code: seq<J.Bytecode>, st: J.State, m': State, hid': Hidden) returns (end: J.State)
    requires Follows(c, code, st, m', hid')
    ensures Runs(code, st, end) && end.stack == st.stack && Seen(c, hid', m', end)
  {
    hide Seen;
    end := J.Run(code, st).value;
  }

  // ----- addresses and positions -----

  lemma AddressIndex(p: Method, k: nat)
    requires p.WellPlaced() && k < |p.insns|
    ensures p.IndexOf(p.AddressOf(k)) == Some(k) && p.AddressOf(k) != p.link
    ensures p.AddressOf(k) == p.base + 4 * k && Wrap(p.AddressOf(k) + 4) == p.AddressOf(k + 1)
    ensures Wrap(p.AddressOf(k) + 8) == p.AddressOf(k + 2)
  {}

  lemma IndexAddress(p: Method, a: Word)
    requires p.WellPlaced() && p.IndexOf(a).Some?
    ensures p.IndexOf(a).value < |p.insns| && p.AddressOf(p.IndexOf(a).value) == a && a != p.link
  {}

  /** The address just past the method is not one the run can continue from. */
  lemma EndUnknown(u: Unit)
    requires u.p.WellPlaced()
    ensures !Reachable(u, u.p.AddressOf(|u.p.insns|))
  {}

  lemma EmittedInsn(u: Unit, k: nat)
    requires k < |u.p.insns| && IsEmitted(u, k) && !u.IsSlot(k)
    ensures k < u.Size() && k + 1 < |u.p.insns|
  {}

  lemma SlotAddsNothing(x: Emitted, k: nat)
    requires x.u.BranchesHaveSlots() && k < |x.u.p.insns| && x.u.IsSlot(k)
    ensures Offset(x.u, x.prefix, k + 1) == Offset(x.u, x.prefix, k)
  {
    BodyNext(x.u, k);
    hide Body;
  }

  lemma OffsetEntry(x: Emitted, k: nat)
    requires x.u.BranchesHaveSlots() && x.u.p.WellPlaced() && k < |x.u.p.insns| && !x.u.IsSlot(k)
    ensures Entry(x, x.u.p.AddressOf(k)) == Offset(x.u, x.prefix, k)
  {
    AddressIndex(x.u.p, k);
    hide Offset, WholeMethod;
  }

  /** What `Landed` says of a frame at an instruction that is not a slot. */
  lemma LandedAtInsn(x: Emitted, f: V.Frame, k: nat, m: State, hid: Hidden)
    requires x.u.BranchesHaveSlots() && x.u.p.WellPlaced() && k < |x.u.p.insns| && !x.u.IsSlot(k)
    ensures Landed(x, f, x.u.p.AddressOf(k), m, hid) <==>
            f.Running? && f.st.stack == J.Empty && Seen(x.u.c, hid, m, f.st) && f.pc == Offset(x.u, x.prefix, k)
  {
    OffsetEntry(x, k);
    AddressIndex(x.u.p, k);
    hide Seen, Offset, Entry, Unit.BranchesHaveSlots;
  }

  // ----- instructions outside branches -----

  lemma StraightParts(x: Emitted, k: nat)
    requires Ready(x) && k < |x.u.p.insns| && !x.u.p.insns[k].IsBranch() && IsEmitted(x.u, k)
    ensures ValidContext(x.u.c) && x.u.BranchesHaveSlots() && x.u.p.WellPlaced()
    ensures Encodable(x.u.p.insns[k]) && Supported(x.u.c, x.u.p.insns[k]) && Covers(x.u.c, x.u.p.insns[k])
    ensures Main(x.u, k) == Code(x.u.c, x.u.p.insns[k]) && |SlotCopy(x.u, k)| == 0
    ensures k + 1 < |x.u.p.insns| ==> !x.u.IsSlot(k + 1)
  {
    WellFormedAt(x.u, k);
    CoversItself(x.u, k);
    hide Supported, Covers, Encodable, ValidContext, Code;
  }

  lemma StraightLands(x: Emitted, f: V.Frame, k: nat, m: State, hid: Hidden, m': State) returns (g: V.Frame)
    requires Ready(x) && k < |x.u.p.insns| && !x.u.p.insns[k].IsBranch() && !x.u.IsSlot(k) && IsEmitted(x.u, k)
    requires Landed(x, f, x.u.p.AddressOf(k), m, hid) && Allowed(x.u.c, x.u.p.insns[k], m, hid)
    requires Execute(x.u.p.insns[k], m) == Some(m')
    ensures V.Reaches(x.Code(), x.java, f, g)
    ensures Landed(x, g, x.u.p.AddressOf(k + 1), m', HiddenAfter(x.u.c, x.u.p.insns[k], m, hid))
  {
    hide *;
    StraightParts(x, k);
    EmittedInsn(x.u, k);
    Parts(x, k);
    LandedAtInsn(x, f, k, m, hid);
    MarkReaches(x, k, f.st, f.savedV1);
    var at := Offset(x.u, x.prefix, k) + |Mark(x.u, k)|;
    var end := InsnReaches(x, at, x.u.p.insns[k], hid, m, f.st, f.savedV1, m');
    g := V.Running(Offset(x.u, x.prefix, k + 1), end, f.savedV1);
    V.ReachesThen(x.Code(), x.java, f, V.Running(at, f.st, f.savedV1), g);
    LandedAtInsn(x, g, k + 1, m', HiddenAfter(x.u.c, x.u.p.insns[k], m, hid));
  }

  // ----- delay slots -----

  /** The facts about a branch and its slot. */
  lemma BranchParts(x: Emitted, k: nat)
    requires Ready(x) && k < |x.u.p.insns| && x.u.p.insns[k].IsBranch()
    ensures ValidContext(x.u.c) && x.u.BranchesHaveSlots() && x.u.p.WellPlaced() && NoLabels(x.prefix)
    ensures k < x.u.Size() && k + 1 < |x.u.p.insns| && !x.u.IsSlot(k) && x.u.IsSlot(k + 1)
    ensures var slot := x.u.p.insns[k + 1];
            !slot.IsBranch() && Encodable(slot) && Supported(x.u.c, slot) && Covers(x.u.c, slot)
    ensures InsnOk(x.u, k) && Main(x.u, k) == BranchCode(x.u, k) && x.u.Delayed(k) == Code(x.u.c, x.u.p.insns[k + 1])
    ensures k + 2 < |x.u.p.insns| ==> !x.u.IsSlot(k + 2)
  {
    WellFormedAt(x.u, k);
    WellFormedAt(x.u, k + 1);
    SlotIsAdmissible(x.u, k + 1);
    hide Supported, Covers, Encodable, ValidContext, Code, BranchCode, InsnOk, Admissible, Covered;
  }

  lemma SlotIsAdmissible(u: Unit, k: nat)
    requires k < |u.p.insns| && InsnOk(u, k) && !u.p.insns[k].IsBranch()
    ensures Encodable(u.p.insns[k]) && Supported(u.c, u.p.insns[k]) && Covers(u.c, u.p.insns[k])
  {
    CoversItself(u, k);
    hide Supported, Covers, Encodable;
  }

  /** The second copy of a slot stands after the branch. */
  lemma CopyParts(x: Emitted, k: nat)
    requires Ready(x) && k < |x.u.p.insns| && x.u.p.insns[k].IsBranch() && x.u.p.AddressOf(k + 1) in x.u.p.table
    ensures x.u.BranchesHaveSlots() && k + 1 < |x.u.p.insns| && !x.u.p.insns[k + 1].IsBranch()
    ensures var slot, at, code := x.u.p.AddressOf(k + 1), SlotEntry(x.u, x.prefix, k), x.Code();
            at >= 1 && V.Stands(code, at - 1, [J.Goto(J.PastSlot(slot))]) &&
            at < |code| && code[at] == J.LabelAt(J.AtAddress(slot)) &&
            V.Stands(code, at + 1, Code(x.u.c, x.u.p.insns[k + 1])) &&
            at + 1 + |Code(x.u.c, x.u.p.insns[k + 1])| < |code| &&
            code[at + 1 + |Code(x.u.c, x.u.p.insns[k + 1])|] == J.LabelAt(J.PastSlot(slot)) &&
            at + 2 + |Code(x.u.c, x.u.p.insns[k + 1])| == Offset(x.u, x.prefix, k + 1)
  {
    hide *;
    BranchParts(x, k);
    Parts(x, k);
    CopyShape(x.u, k);
    var at := Offset(x.u, x.prefix, k) + |Mark(x.u, k)| + |Main(x.u, k)|;
    CopyStands(x.Code(), at, x.u.p.AddressOf(k + 1), x.u.Delayed(k));
    EntryIs(x.u, x.prefix, k);
  }

  lemma EntryIs(u: Unit, prefix: seq<J.Bytecode>, k: nat)
    requires u.BranchesHaveSlots() && k < |u.p.insns|
    ensures SlotEntry(u, prefix, k) == Offset(u, prefix, k) + |Mark(u, k)| + |Main(u, k)| + 1
  {}

  lemma CopyShape(u: Unit, k: nat)
    requires u.BranchesHaveSlots() && k < |u.p.insns| && u.p.insns[k].IsBranch() && u.p.AddressOf(k + 1) in u.p.table
    ensures SlotCopy(u, k) ==
            [J.Goto(J.PastSlot(u.p.AddressOf(k + 1))), J.LabelAt(J.AtAddress(u.p.AddressOf(k + 1)))]
            + u.Delayed(k) + [J.LabelAt(J.PastSlot(u.p.AddressOf(k + 1)))]
  {
    hide Code;
  }

  lemma CopyStands(code: seq<J.Bytecode>, at: nat, slot: Word, d: seq<J.Bytecode>)
    requires V.Stands(code, at, [J.Goto(J.PastSlot(slot)), J.LabelAt(J.AtAddress(slot))] + d + [J.LabelAt(J.PastSlot(slot))])
    ensures V.Stands(code, at, [J.Goto(J.PastSlot(slot))])
    ensures at + 1 < |code| && code[at + 1] == J.LabelAt(J.AtAddress(slot)) && V.Stands(code, at + 2, d)
    ensures at + 2 + |d| < |code| && code[at + 2 + |d|] == J.LabelAt(J.PastSlot(slot))
  {
    var a, b, past := [J.Goto(J.PastSlot(slot))], [J.LabelAt(J.AtAddress(slot))], [J.LabelAt(J.PastSlot(slot))];
    assert [J.Goto(J.PastSlot(slot)), J.LabelAt(J.AtAddress(slot))] == a + b;
    SplitStands(code, at, a + b, d, past);
    SplitStands(code, at, a, b, []) by { assert a + b + [] == a + b; }
    StandsAt(code, at + 1, b[0]);
    StandsAt(code, at + 2 + |d|, past[0]);
  }

  /** After a branch that falls through, control passes over the second copy of its slot. */
  lemma FallsThrough(x: Emitted, k: nat, st: J.State, v1: Word)
    requires Ready(x) && k < |x.u.p.insns| && x.u.p.insns[k].IsBranch()
    ensures x.u.BranchesHaveSlots()
    ensures V.Reaches(x.Code(), x.java, V.Running(Offset(x.u, x.prefix, k) + |Mark(x.u, k)| + |Main(x.u, k)|, st, v1),
                      V.Running(Offset(x.u, x.prefix, k + 1), st, v1))
  {
    hide *;
    BranchParts(x, k);
    var slot := x.u.p.AddressOf(k + 1);
    if slot in x.u.p.table {
      CopyParts(x, k);
      PastPosition(x.u, x.prefix, k);
      EntryIs(x.u, x.prefix, k);
      CodeIs(x);
      var at, past := SlotEntry(x.u, x.prefix, k) - 1, Offset(x.u, x.prefix, k + 1) - 1;
      GotoReaches(x, at, J.PastSlot(slot), st, v1);
      LabelReaches(x, past, J.PastSlot(slot), st, v1);
      V.ReachesThen(x.Code(), x.java, V.Running(at, st, v1), V.Running(past, st, v1), V.Running(past + 1, st, v1));
    } else {
      Parts(x, k);
      NoCopy(x.u, k);
      V.ReachesSelf(x.Code(), x.java, V.Running(Offset(x.u, x.prefix, k + 1), st, v1));
    }
  }

  lemma CodeIs(x: Emitted)
    requires x.u.BranchesHaveSlots()
    ensures x.Code() == WholeMethod(x.u, x.prefix)
  {
    hide WholeMethod;
  }

  lemma NoCopy(u: Unit, k: nat)
    requires u.BranchesHaveSlots() && k < |u.p.insns| && u.p.AddressOf(k + 1) !in u.p.table
    ensures SlotCopy(u, k) == []
  {
    hide Code;
  }

  /** A frame that has reached the end of a branch's code stands at the instruction after its slot. */
  lemma PastBranch(x: Emitted, k: nat, st: J.State, v1: Word, m: State, hid: Hidden) returns (g: V.Frame)
    requires Ready(x) && k < |x.u.p.insns| && x.u.p.insns[k].IsBranch()
    requires st.stack == J.Empty && Seen(x.u.c, hid, m, st)
    ensures x.u.BranchesHaveSlots()
    ensures V.Reaches(x.Code(), x.java, V.Running(Offset(x.u, x.prefix, k) + |Mark(x.u, k)| + |Main(x.u, k)|, st, v1), g)
    ensures Reachable(x.u, x.u.p.AddressOf(k + 2)) ==> Landed(x, g, x.u.p.AddressOf(k + 2), m, hid)
  {
    hide *;
    BranchParts(x, k);
    FallsThrough(x, k, st, v1);
    SlotAddsNothing(x, k + 1);
    g := V.Running(Offset(x.u, x.prefix, k + 1), st, v1);
    if k + 2 < |x.u.p.insns| {
      LandedAtInsn(x, g, k + 2, m, hid);
    } else {
      EndUnknown(x.u);
    }
  }

  /** A delay slot reached through the jump table executes once and falls through. */
  lemma SlotLands(x: Emitted, f: V.Frame, k: nat, m: State, hid: Hidden, m': State) returns (g: V.Frame)
    requires Ready(x) && k + 1 < |x.u.p.insns| && x.u.p.insns[k].IsBranch()
    requires Landed(x, f, x.u.p.AddressOf(k + 1), m, hid)
    requires !x.u.p.insns[k + 1].IsBranch() && Allowed(x.u.c, x.u.p.insns[k + 1], m, hid)
    requires Execute(x.u.p.insns[k + 1], m) == Some(m')
    ensures V.Reaches(x.Code(), x.java, f, g)
    ensures Reachable(x.u, x.u.p.AddressOf(k + 2)) ==>
              Landed(x, g, x.u.p.AddressOf(k + 2), m', HiddenAfter(x.u.c, x.u.p.insns[k + 1], m, hid))
  {
    hide *;
    BranchParts(x, k);
    LandedAtSlot(x, f, k, m, hid);
    CopyParts(x, k);
    SlotAddsNothing(x, k + 1);
    var slot, insn := x.u.p.AddressOf(k + 1), x.u.p.insns[k + 1];
    var at, past := SlotEntry(x.u, x.prefix, k), Offset(x.u, x.prefix, k + 1) - 1;
    LabelReaches(x, at, J.AtAddress(slot), f.st, f.savedV1);
    var end := InsnReaches(x, at + 1, insn, hid, m, f.st, f.savedV1, m');
    LabelReaches(x, past, J.PastSlot(slot), end, f.savedV1);
    g := V.Running(past + 1, end, f.savedV1);
    V.ReachesThen(x.Code(), x.java, f, V.Running(at + 1, f.st, f.savedV1), V.Running(past, end, f.savedV1));
    V.ReachesThen(x.Code(), x.java, f, V.Running(past, end, f.savedV1), g);
    if k + 2 < |x.u.p.insns| {
      LandedAtInsn(x, g, k + 2, m', HiddenAfter(x.u.c, insn, m, hid));
    } else {
      EndUnknown(x.u);
    }
  }

  lemma LandedAtSlot(x: Emitted, f: V.Frame, k: nat, m: State, hid: Hidden)
    requires x.u.BranchesHaveSlots() && x.u.p.WellPlaced() && k + 1 < |x.u.p.insns| && x.u.p.insns[k].IsBranch()
    ensures Landed(x, f, x.u.p.AddressOf(k + 1), m, hid) <==>
            f.Running? && f.st.stack == J.Empty && Seen(x.u.c, hid, m, f.st) && f.pc == SlotEntry(x.u, x.prefix, k) &&
            x.u.p.AddressOf(k + 1) in x.u.p.table
  {
    AddressIndex(x.u.p, k + 1);
    SlotEntryIs(x, k);
    hide Seen, Entry, SlotEntry, WholeMethod, Unit.BranchesHaveSlots;
  }

  lemma SlotEntryIs(x: Emitted, k: nat)
    requires x.u.BranchesHaveSlots() && x.u.p.WellPlaced() && k + 1 < |x.u.p.insns| && x.u.p.insns[k].IsBranch()
    ensures Entry(x, x.u.p.AddressOf(k + 1)) == SlotEntry(x.u, x.prefix, k)
  {
    AddressIndex(x.u.p, k + 1);
    hide SlotEntry, WholeMethod, Offset;
  }

  /** The part of a branch before its transfer of control: operands, then the delay slot, which finds them
      on the stack and leaves them there. */
  lemma BranchHead(x: Emitted, f: V.Frame, k: nat, m: State, hid: Hidden, m2: State, pre: seq<J.Bytecode>, below: J.Stack, post: seq<J.Bytecode>) returns (at: nat, st: J.State)
    requires Ready(x) && k + 1 < |x.u.p.insns| && x.u.p.insns[k].IsBranch() && !x.u.p.insns[k + 1].IsBranch()
    requires Landed(x, f, x.u.p.AddressOf(k), m, hid)
    requires BranchCode(x.u, k) == pre + Code(x.u.c, x.u.p.insns[k + 1]) + post && Runs(pre, f.st, Stk(f.st, below))
    requires var m1 := Linked(x.u.p.AddressOf(k), x.u.p.insns[k], m);
             Allowed(x.u.c, x.u.p.insns[k + 1], m1, hid) && Execute(x.u.p.insns[k + 1], m1) == Some(m2)
    ensures V.Reaches(x.Code(), x.java, f, V.Running(at, st, f.savedV1)) && V.Stands(x.Code(), at, post)
    ensures at + |post| == Offset(x.u, x.prefix, k) + |Mark(x.u, k)| + |Main(x.u, k)|
    ensures var m1 := Linked(x.u.p.AddressOf(k), x.u.p.insns[k], m);
            st.stack == below && Seen(x.u.c, HiddenAfter(x.u.c, x.u.p.insns[k + 1], m1, hid), m2, st)
  {
    hide *;
    BranchParts(x, k);
    Parts(x, k);
    LandedAtInsn(x, f, k, m, hid);
    MarkReaches(x, k, f.st, f.savedV1);
    var slot, m1 := x.u.p.insns[k + 1], Linked(x.u.p.AddressOf(k), x.u.p.insns[k], m);
    var at0 := Offset(x.u, x.prefix, k) + |Mark(x.u, k)|;
    SplitStands(x.Code(), at0, pre, Code(x.u.c, slot), post);
    LinkKeeps(x.u.c, hid, m, f.st, x.u.p.AddressOf(k), x.u.p.insns[k], below);
    PartReaches(x, at0, pre, f.st, Stk(f.st, below), f.savedV1);
    var at1 := at0 + |pre|;
    st := InsnReaches(x, at1, slot, hid, m1, Stk(f.st, below), f.savedV1, m2);
    at := at1 + |Code(x.u.c, slot)|;
    V.ReachesThen(x.Code(), x.java, f, V.Running(at0, f.st, f.savedV1), V.Running(at1, Stk(f.st, below), f.savedV1));
    V.ReachesThen(x.Code(), x.java, f, V.Running(at1, Stk(f.st, below), f.savedV1), V.Running(at, st, f.savedV1));
    StackOf(f.st, below);
  }

  lemma StackOf(st: J.State, s: J.Stack)
    ensures Stk(st, s).stack == s
  {}

  /** The link register is in no local, and the operand stack does not matter to the relation. */
  lemma LinkKeeps(c: Context, hid: Hidden, m: State, st: J.State, a: Word, insn: Insn, below: J.Stack)
    requires Seen(c, hid, m, st)
    ensures Seen(c, hid, Linked(a, insn, m), Stk(st, below))
  {
    hide Holds, Wrap;
  }

  // ----- conditional branches and jumps -----

  function OperandStack(cond: Condition, rt: Field, a: Word, b: Word): J.Stack {
    if ComparesTwo(cond, rt) then I(b, I(a, J.Empty)) else I(a, J.Empty)
  }

  lemma OperandsPushed(c: Context, hid: Hidden, m: State, st: J.State, cond: Condition, rs: Field, rt: Field)
    requires ValidContext(c) && Seen(c, hid, m, st) && st.stack == J.Empty
    requires Readable(c, rs) && (ComparesTwo(cond, rt) ==> Readable(c, rt))
    requires Known(hid, rs) && (ComparesTwo(cond, rt) ==> Known(hid, rt))
    ensures Runs(Operands(c, cond, rs, rt), st, Stk(st, OperandStack(cond, rt, m.Reg(rs), m.Reg(rt))))
  {
    EmptyStack(st);
    hide Seen, PushRegister, Runs, Readable, Known, Stk, I;
    var a := SeenPush(c, hid, m, st, rs, J.Empty);
    if ComparesTwo(cond, rt) {
      var b := SeenPush(c, hid, m, st, rt, I(a, J.Empty));
      Then([PushRegister(c, rs)], [PushRegister(c, rt)], st, Stk(st, I(a, J.Empty)), Stk(st, I(b, I(a, J.Empty))));
      assert [PushRegister(c, rs)] + [PushRegister(c, rt)] == [PushRegister(c, rs), PushRegister(c, rt)];
    }
  }

  /** The Java comparison decides as the MIPS one. */
  lemma IfDecides(code: seq<J.Bytecode>, cond: Condition, rt: Field, a: Word, b: Word, l: J.Label, at: nat, st: J.State, v1: Word)
    requires st.stack == OperandStack(cond, rt, a, b) && (rt == R_ZERO ==> b == 0)
    ensures V.IfStep(code, IfOpOf(cond, rt), l, V.Running(at, st, v1)) ==
            Some(V.Running(if Taken(cond, a, b) then V.Position(code, l) else at + 1, Stk(st, J.Empty), v1))
  {
    hide V.Position;
  }

  /** Every instruction that some branch of the method leads to has its label. */
  lemma TargetEntry(x: Emitted, k: nat, t: Word)
    requires Ready(x) && k < x.u.Size() && Targets(x.u.p.insns[k], x.u.p.AddressOf(k), t) && InMethod(x.u, t) && Reachable(x.u, t)
    ensures x.u.BranchesHaveSlots()
    ensures V.Position(x.Code(), J.AtAddress(t)) == Entry(x, t)
  {
    var i := x.u.p.IndexOf(t).value;
    IndexAddress(x.u.p, t);
    EmittedInsn(x.u, i);
    assert x.u.IsBranchTarget(i);
    OffsetEntry(x, i);
    hide WellFormed, Entry, WholeMethod;
    AddressPosition(x.u, x.prefix, i);
  }

  lemma LandsInside(x: Emitted, g: V.Frame, t: Word, m: State, hid: Hidden)
    requires x.u.BranchesHaveSlots() && InMethod(x.u, t)
    requires g.Running? && g.st.stack == J.Empty && Seen(x.u.c, hid, m, g.st) && g.pc == Entry(x, t)
    ensures Landed(x, g, t, m, hid)
  {
    hide Seen, Entry;
  }

  /** What `InsnOk` says of a conditional branch. */
  lemma BranchOk(u: Unit, k: nat)
    requires k < |u.p.insns| && u.p.insns[k].Branch? && InsnOk(u, k)
    ensures var b := u.p.insns[k];
            Readable(u.c, b.rs) && (ComparesTwo(b.cond, b.rt) ==> Readable(u.c, b.rt)) &&
            InMethod(u, Wrap(u.p.AddressOf(k) + 4 + 4 * b.offset)) &&
            Targets(b, u.p.AddressOf(k), Wrap(u.p.AddressOf(k) + 4 + 4 * b.offset))
  {
    var b := u.p.insns[k];
    CoversItself(u, k);
    ReadableField(u.c, b, b.rs);
    if ComparesTwo(b.cond, b.rt) {
      ReadableField(u.c, b, b.rt);
    }
    hide Readable, InMethod;
  }

  lemma BranchShape(u: Unit, k: nat)
    requires u.BranchesHaveSlots() && k < |u.p.insns| && u.p.insns[k].Branch?
    ensures k + 1 < |u.p.insns| && !u.p.insns[k + 1].IsBranch()
    ensures var b := u.p.insns[k];
            BranchCode(u, k) == Operands(u.c, b.cond, b.rs, b.rt) + Code(u.c, u.p.insns[k + 1])
            + [J.If(IfOpOf(b.cond, b.rt), J.AtAddress(Wrap(u.p.AddressOf(k) + 4 + 4 * b.offset)))]
  {
    hide Code, Operands, IfOpOf;
  }

  lemma IfReaches(x: Emitted, at: nat, st: J.State, v1: Word, cond: Condition, rt: Field, a: Word, b: Word, l: J.Label)
    requires x.u.BranchesHaveSlots() && V.Stands(x.Code(), at, [J.If(IfOpOf(cond, rt), l)])
    requires st.stack == OperandStack(cond, rt, a, b) && (rt == R_ZERO ==> b == 0)
    ensures V.Reaches(x.Code(), x.java, V.Running(at, st, v1),
              V.Running(if Taken(cond, a, b) then V.Position(x.Code(), l) else at + 1, Stk(st, J.Empty), v1))
  {
    IfDecides(x.Code(), cond, rt, a, b, l, at, st, v1);
    StandsAt(x.Code(), at, J.If(IfOpOf(cond, rt), l));
    hide WholeMethod, V.IfStep, IfOpOf, Taken;
    ControlReaches(x, J.If(IfOpOf(cond, rt), l), V.Running(at, st, v1),
                   V.Running(if Taken(cond, a, b) then V.Position(x.Code(), l) else at + 1, Stk(st, J.Empty), v1));
  }

  lemma RegZero(m: State, r: Field)
    ensures r == R_ZERO ==> m.Reg(r) == 0
  {}

  /** A conditional branch: operands are read before the slot runs, the slot runs once either way. */
  lemma IfLands(x: Emitted, f: V.Frame, k: nat, m: State, hid: Hidden, m2: State) returns (g: V.Frame)
    requires Ready(x) && k + 1 < |x.u.p.insns| && x.u.p.insns[k].Branch? && !x.u.p.insns[k + 1].IsBranch()
    requires Landed(x, f, x.u.p.AddressOf(k), m, hid) && DecidesOnKnown(x.u.p.insns[k], hid)
    requires Allowed(x.u.c, x.u.p.insns[k + 1], m, hid) && Execute(x.u.p.insns[k + 1], m) == Some(m2)
    ensures V.Reaches(x.Code(), x.java, f, g)
    ensures var b := x.u.p.insns[k];
            var t := if Taken(b.cond, m.Reg(b.rs), m.Reg(b.rt)) then Wrap(x.u.p.AddressOf(k) + 4 + 4 * b.offset) else x.u.p.AddressOf(k + 2);
            Reachable(x.u, t) ==> Landed(x, g, t, m2, HiddenAfter(x.u.c, x.u.p.insns[k + 1], m, hid))
  {
    hide *;
    IsABranch(x.u.p.insns[k]);
    BranchParts(x, k);
    BranchOk(x.u, k);
    BranchShape(x.u, k);
    LandedAtInsn(x, f, k, m, hid);
    var b := x.u.p.insns[k];
    var t, hid2 := Wrap(x.u.p.AddressOf(k) + 4 + 4 * b.offset), HiddenAfter(x.u.c, x.u.p.insns[k + 1], m, hid);
    var below := OperandStack(b.cond, b.rt, m.Reg(b.rs), m.Reg(b.rt));
    DecidedBranch(b, hid);
    OperandsPushed(x.u.c, hid, m, f.st, b.cond, b.rs, b.rt);
    NotLinked(x.u.p.AddressOf(k), b, m);
    var post := [J.If(IfOpOf(b.cond, b.rt), J.AtAddress(t))];
    var at, st := BranchHead(x, f, k, m, hid, m2, Operands(x.u.c, b.cond, b.rs, b.rt), below, post);
    RegZero(m, b.rt);
    IfReaches(x, at, st, f.savedV1, b.cond, b.rt, m.Reg(b.rs), m.Reg(b.rt), J.AtAddress(t));
    var end := Stk(st, J.Empty);
    SeenAnyStack(x.u.c, hid2, m2, st, J.Empty);
    if Taken(b.cond, m.Reg(b.rs), m.Reg(b.rt)) {
      g := V.Running(V.Position(x.Code(), J.AtAddress(t)), end, f.savedV1);
      V.ReachesThen(x.Code(), x.java, f, V.Running(at, st, f.savedV1), g);
      if Reachable(x.u, t) {
        TargetEntry(x, k, t);
        LandsInside(x, g, t, m2, hid2);
      }
    } else {
      g := PastBranch(x, k, end, f.savedV1, m2, hid2);
      V.ReachesThen(x.Code(), x.java, f, V.Running(at, st, f.savedV1), V.Running(at + 1, end, f.savedV1));
      V.ReachesThen(x.Code(), x.java, f, V.Running(at + 1, end, f.savedV1), g);
    }
  }

  lemma DecidedBranch(insn: Insn, hid: Hidden)
    requires insn.Branch? && DecidesOnKnown(insn, hid)
    ensures Known(hid, insn.rs) && (ComparesTwo(insn.cond, insn.rt) ==> Known(hid, insn.rt))
  {
    hide Known;
  }

  lemma IsABranch(insn: Insn)
    ensures insn.Branch? || insn.Jump? || insn.Jal? || insn.Jalr? || insn.Jr? ==> insn.IsBranch()
  {}

  lemma NotLinked(a: Word, insn: Insn, m: State)
    requires !insn.Jal? && !insn.Jalr?
    ensures Linked(a, insn, m) == m
  {}

  lemma NothingPushed(st: J.State)
    requires st.stack == J.Empty
    ensures Runs([], st, Stk(st, J.Empty))
  {
    assert Stk(st, J.Empty) == st;
    Run0(st);
  }

  /** `j` inside the method. */
  lemma JumpLands(x: Emitted, f: V.Frame, k: nat, m: State, hid: Hidden, m2: State) returns (g: V.Frame)
    requires Ready(x) && k + 1 < |x.u.p.insns| && x.u.p.insns[k].Jump? && !x.u.p.insns[k + 1].IsBranch()
    requires x.u.p.IndexOf(x.u.p.insns[k].target).Some?
    requires Landed(x, f, x.u.p.AddressOf(k), m, hid)
    requires Allowed(x.u.c, x.u.p.insns[k + 1], m, hid) && Execute(x.u.p.insns[k + 1], m) == Some(m2)
    ensures V.Reaches(x.Code(), x.java, f, g)
    ensures Reachable(x.u, x.u.p.insns[k].target) ==>
              Landed(x, g, x.u.p.insns[k].target, m2, HiddenAfter(x.u.c, x.u.p.insns[k + 1], m, hid))
  {
    hide *;
    IsABranch(x.u.p.insns[k]);
    BranchParts(x, k);
    JumpShape(x.u, k);
    LandedAtInsn(x, f, k, m, hid);
    var t, hid2 := x.u.p.insns[k].target, HiddenAfter(x.u.c, x.u.p.insns[k + 1], m, hid);
    NothingPushed(f.st);
    NotLinked(x.u.p.AddressOf(k), x.u.p.insns[k], m);
    var at, st := BranchHead(x, f, k, m, hid, m2, [], J.Empty, [J.Goto(J.AtAddress(t))]);
    GotoReaches(x, at, J.AtAddress(t), st, f.savedV1);
    g := V.Running(V.Position(x.Code(), J.AtAddress(t)), st, f.savedV1);
    V.ReachesThen(x.Code(), x.java, f, V.Running(at, st, f.savedV1), g);
    if Reachable(x.u, t) {
      TargetEntry(x, k, t);
      LandsInside(x, g, t, m2, hid2);
    }
  }

  lemma JumpShape(u: Unit, k: nat)
    requires u.BranchesHaveSlots() && k < |u.p.insns| && u.p.insns[k].Jump? && InsnOk(u, k)
    requires u.p.IndexOf(u.p.insns[k].target).Some?
    ensures k + 1 < |u.p.insns| && !u.p.insns[k + 1].IsBranch()
    ensures var t := u.p.insns[k].target;
            BranchCode(u, k) == [] + Code(u.c, u.p.insns[k + 1]) + [J.Goto(J.AtAddress(t))] && InMethod(u, t) &&
            Targets(u.p.insns[k], u.p.AddressOf(k), t)
  {
    hide Code, InMethod, Covers;
  }

  // ----- returns and the jump table -----

  lemma LandsAtLink(x: Emitted, g: V.Frame, m: State, hid: Hidden)
    requires x.u.BranchesHaveSlots() && x.u.p.WellPlaced()
    requires g.Running? && g.st.stack == J.Empty && Seen(x.u.c, hid, m, g.st) && g.pc == V.Position(x.Code(), J.FunctionReturn)
    ensures Landed(x, g, x.u.p.link, m, hid)
  {
    hide Seen, WholeMethod, V.Position;
  }

  lemma ReturnShape(u: Unit, k: nat)
    requires u.BranchesHaveSlots() && k < |u.p.insns| && u.p.insns[k].Jr?
    ensures k + 1 < |u.p.insns| && !u.p.insns[k + 1].IsBranch()
    ensures var rs := u.p.insns[k].rs;
            BranchCode(u, k) ==
            if rs == R_RA then [] + Code(u.c, u.p.insns[k + 1]) + [J.Goto(J.FunctionReturn)]
            else [PushRegister(u.c, rs)] + Code(u.c, u.p.insns[k + 1]) + [J.Goto(J.JumpTable)]
  {
    hide Code, PushRegister;
  }

  /** `jr $ra`. */
  lemma ReturnLands(x: Emitted, f: V.Frame, k: nat, m: State, hid: Hidden, m2: State) returns (g: V.Frame)
    requires Ready(x) && k + 1 < |x.u.p.insns| && x.u.p.insns[k].Jr? && !x.u.p.insns[k + 1].IsBranch()
    requires x.u.p.insns[k].rs == R_RA && m.Reg(R_RA) == x.u.p.link
    requires Landed(x, f, x.u.p.AddressOf(k), m, hid)
    requires Allowed(x.u.c, x.u.p.insns[k + 1], m, hid) && Execute(x.u.p.insns[k + 1], m) == Some(m2)
    ensures V.Reaches(x.Code(), x.java, f, g)
    ensures Landed(x, g, x.u.p.link, m2, HiddenAfter(x.u.c, x.u.p.insns[k + 1], m, hid))
  {
    hide *;
    IsABranch(x.u.p.insns[k]);
    BranchParts(x, k);
    ReturnShape(x.u, k);
    LandedAtInsn(x, f, k, m, hid);
    NothingPushed(f.st);
    NotLinked(x.u.p.AddressOf(k), x.u.p.insns[k], m);
    var at, st := BranchHead(x, f, k, m, hid, m2, [], J.Empty, [J.Goto(J.FunctionReturn)]);
    GotoReaches(x, at, J.FunctionReturn, st, f.savedV1);
    g := V.Running(V.Position(x.Code(), J.FunctionReturn), st, f.savedV1);
    V.ReachesThen(x.Code(), x.java, f, V.Running(at, st, f.savedV1), g);
    LandsAtLink(x, g, m2, HiddenAfter(x.u.c, x.u.p.insns[k + 1], m, hid));
  }

  /** The jump table: an address it holds, or the caller's. */
  lemma TableLands(x: Emitted, f: V.Frame, k: nat, m: State, hid: Hidden, m2: State) returns (g: V.Frame)
    requires Ready(x) && k + 1 < |x.u.p.insns| && x.u.p.insns[k].Jr? && !x.u.p.insns[k + 1].IsBranch()
    requires var t := m.Reg(x.u.p.insns[k].rs);
             x.u.p.insns[k].rs != R_RA && (t == x.u.p.link || t in x.u.p.table)
    requires Landed(x, f, x.u.p.AddressOf(k), m, hid) && Known(hid, x.u.p.insns[k].rs)
    requires Allowed(x.u.c, x.u.p.insns[k + 1], m, hid) && Execute(x.u.p.insns[k + 1], m) == Some(m2)
    ensures V.Reaches(x.Code(), x.java, f, g)
    ensures var t := m.Reg(x.u.p.insns[k].rs);
            Reachable(x.u, t) ==> Landed(x, g, t, m2, HiddenAfter(x.u.c, x.u.p.insns[k + 1], m, hid))
  {
    var rs: Register := x.u.p.insns[k].rs;
    hide *;
    IsABranch(x.u.p.insns[k]);
    var t, hid2 := m.Reg(rs), HiddenAfter(x.u.c, x.u.p.insns[k + 1], m, hid);
    BranchParts(x, k);
    ReturnShape(x.u, k);
    IndirectOk(x.u, k);
    LandedAtInsn(x, f, k, m, hid);
    EmptyStack(f.st);
    var v := SeenPush(x.u.c, hid, m, f.st, rs, J.Empty);
    NotLinked(x.u.p.AddressOf(k), x.u.p.insns[k], m);
    var at, st := BranchHead(x, f, k, m, hid, m2, [PushRegister(x.u.c, rs)], I(t, J.Empty), [J.Goto(J.JumpTable)]);
    g := DispatchReaches(x, at, st, f.savedV1, t, m2, hid2);
    V.ReachesThen(x.Code(), x.java, f, V.Running(at, st, f.savedV1), g);
  }

  /** From the jump to the table on. */
  lemma DispatchReaches(x: Emitted, at: nat, st: J.State, v1: Word, t: Word, m: State, hid: Hidden) returns (g: V.Frame)
    requires Ready(x) && x.u.BranchesHaveSlots() && x.u.p.WellPlaced() && x.u.Indirect() && NoLabels(x.prefix)
    requires V.Stands(x.Code(), at, [J.Goto(J.JumpTable)]) && st.stack == I(t, J.Empty) && Seen(x.u.c, hid, m, st)
    requires t == x.u.p.link || t in x.u.p.table
    ensures V.Reaches(x.Code(), x.java, V.Running(at, st, v1), g) && (Reachable(x.u, t) ==> Landed(x, g, t, m, hid))
  {
    hide *;
    SeenAnyStack(x.u.c, hid, m, st, J.Empty);
    GotoReaches(x, at, J.JumpTable, st, v1);
    TableStands(x.u, x.prefix);
    CodeIs(x);
    var tab := V.Position(x.Code(), J.JumpTable);
    LabelReaches(x, tab, J.JumpTable, st, v1);
    V.ReachesThen(x.Code(), x.java, V.Running(at, st, v1), V.Running(tab, st, v1), V.Running(tab + 1, st, v1));
    SwitchReaches(x, tab + 1, st, v1, t);
    var l := if t in x.u.p.table then J.AtAddress(t) else J.FunctionReturn;
    g := V.Running(V.Position(x.Code(), l), Stk(st, J.Empty), v1);
    V.ReachesThen(x.Code(), x.java, V.Running(at, st, v1), V.Running(tab + 1, st, v1), g);
    if t in x.u.p.table {
      if Reachable(x.u, t) {
        TableEntry(x, t);
        LandsByTable(x, g, t, m, hid);
      }
    } else {
      LandsAtLink(x, g, m, hid);
    }
  }

  lemma EmptyStack(st: J.State)
    requires st.stack == J.Empty
    ensures Stk(st, J.Empty) == st
  {}

  lemma IndirectOk(u: Unit, k: nat)
    requires k < u.Size() && u.p.insns[k].Jr? && u.p.insns[k].rs != R_RA && InsnOk(u, k)
    ensures u.Indirect() && Readable(u.c, u.p.insns[k].rs)
  {
    CoversItself(u, k);
    ReadableField(u.c, u.p.insns[k], u.p.insns[k].rs);
    hide Readable;
  }

  lemma SwitchReaches(x: Emitted, at: nat, st: J.State, v1: Word, t: Word)
    requires x.u.BranchesHaveSlots() && at < |x.Code()| && x.Code()[at] == J.LookupSwitch(x.u.p.table)
    requires st.stack == I(t, J.Empty)
    ensures var l := if t in x.u.p.table then J.AtAddress(t) else J.FunctionReturn;
            V.Reaches(x.Code(), x.java, V.Running(at, st, v1), V.Running(V.Position(x.Code(), l), Stk(st, J.Empty), v1))
  {
    hide WholeMethod, V.Position;
    var l := if t in x.u.p.table then J.AtAddress(t) else J.FunctionReturn;
    ControlReaches(x, J.LookupSwitch(x.u.p.table), V.Running(at, st, v1), V.Running(V.Position(x.Code(), l), Stk(st, J.Empty), v1));
  }

  /** Every jump table address has its label, at the start of an instruction's code or of a slot's second copy. */
  lemma TableEntry(x: Emitted, t: Word)
    requires Ready(x) && t in x.u.p.table && Reachable(x.u, t)
    ensures x.u.BranchesHaveSlots()
    ensures V.Position(x.Code(), J.AtAddress(t)) == Entry(x, t)
  {
    var i := x.u.p.IndexOf(t).value;
    IndexAddress(x.u.p, t);
    if x.u.IsSlot(i) {
      BranchParts(x, i - 1);
      hide WellFormed, WholeMethod, SlotEntry;
      SlotPosition(x.u, x.prefix, i - 1);
    } else {
      EmittedInsn(x.u, i);
      OffsetEntry(x, i);
      hide WellFormed, Entry, WholeMethod;
      AddressPosition(x.u, x.prefix, i);
    }
  }

  lemma LandsByTable(x: Emitted, g: V.Frame, t: Word, m: State, hid: Hidden)
    requires x.u.BranchesHaveSlots() && t in x.u.p.table
    requires g.Running? && g.st.stack == J.Empty && Seen(x.u.c, hid, m, g.st) && g.pc == Entry(x, t)
    ensures Landed(x, g, t, m, hid)
  {
    hide Seen, Entry;
  }

  // ----- calls -----

  /** Arguments pushed in order. */
  function Pushed(args: seq<Word>, s: J.Stack): J.Stack {
    if args == [] then s else I(args[|args| - 1], Pushed(args[..|args| - 1], s))
  }

  lemma {:induction false} PushAllRuns(c: Context, hid: Hidden, m: State, st: J.State, regs: seq<Register>, s: J.Stack) returns (args: seq<Word>)
    requires ValidContext(c) && Seen(c, hid, m, st)
    requires forall i :: 0 <= i < |regs| ==> regs[i] < 34 && Readable(c, regs[i])
    ensures SameArguments(regs, hid, Arguments(regs, m), args) && |args| == |regs|
    ensures Runs(PushAll(c, regs), Stk(st, s), Stk(st, Pushed(args, s)))
    decreases |regs|
  {
    hide Seen, PushRegister, Runs, Readable;
    if regs == [] {
      args := [];
      Run0(Stk(st, s));
    } else {
      var front, last := regs[..|regs| - 1], regs[|regs| - 1];
      var rest := PushAllRuns(c, hid, m, st, front, s);
      var below := Pushed(rest, s);
      var v := SeenPush(c, hid, m, st, last, below);
      args := rest + [v];
      Then(PushAll(c, front), [PushRegister(c, last)], Stk(st, s), Stk(st, below), Stk(st, I(v, below)));
      assert args[..|args| - 1] == rest;
      assert Arguments(regs, m)[..|regs| - 1] == Arguments(front, m);
      hide Known;
    }
  }

  lemma {:induction false} PopPushed(args: seq<Word>, s: J.Stack)
    ensures V.PopInts(Pushed(args, s), |args|) == Some((args, s))
    decreases |args|
  {
    if args != [] {
      PopPushed(args[..|args| - 1], s);
      assert args[..|args| - 1] + [args[|args| - 1]] == args;
    }
  }

  /** A first argument below the others. */
  lemma {:induction false} PushedOver(a: Word, args: seq<Word>, s: J.Stack)
    ensures Pushed(args, I(a, s)) == Pushed([a] + args, s)
    decreases |args|
  {
    if args == [] {
      assert [a] + args == [a];
      assert [a][..0] == [];
    } else {
      PushedOver(a, args[..|args| - 1], s);
      assert ([a] + args)[..|args|] == [a] + args[..|args| - 1];
    }
  }

  /** The stack a call is compiled on: the address of an indirect callee lies below the arguments. */
  function CallStack(callee: Word, indirect: bool): J.Stack {
    if indirect then I(callee, J.Empty) else J.Empty
  }

  function IntStack(v: Option<Word>): J.Stack {
    if v.Some? then I(v.value, J.Empty) else J.Empty
  }

  lemma TableReaches(x: Emitted, f: V.Frame, callee: Word, args: seq<Word>, jo: V.JavaOutcome)
    requires x.u.BranchesHaveSlots() && f.Running? && f.pc < |x.Code()| && x.Code()[f.pc] == J.InvokeTable
    requires |args| == 5 && f.st.stack == Pushed(args, I(callee, J.Empty)) && jo.value.Some?
    requires x.java(callee, true, args, f.st.memory, f.savedV1) == Some(jo)
    ensures V.Reaches(x.Code(), x.java, f, V.Running(f.pc + 1, J.State(IntStack(jo.value), f.st.locals, jo.memory), jo.savedV1))
  {
    var g := V.Running(f.pc + 1, J.State(IntStack(jo.value), f.st.locals, jo.memory), jo.savedV1);
    PushedOver(callee, args, J.Empty);
    PopPushed([callee] + args, J.Empty);
    hide WholeMethod, V.ControlStep, Pushed, V.PopInts, Unit.BranchesHaveSlots, V.Reaches;
    TableStep(x.Code(), x.java, f, callee, args, jo);
    ControlReaches(x, J.InvokeTable, f, g);
  }

  lemma MethodReaches(x: Emitted, f: V.Frame, callee: Word, args: seq<Word>, jo: V.JavaOutcome)
    requires x.u.BranchesHaveSlots() && f.Running? && f.pc < |x.Code()|
    requires x.Code()[f.pc] == J.InvokeMethod(callee, |args|, jo.value.Some?) && f.st.stack == Pushed(args, J.Empty)
    requires x.java(callee, false, args, f.st.memory, f.savedV1) == Some(jo)
    ensures V.Reaches(x.Code(), x.java, f, V.Running(f.pc + 1, J.State(IntStack(jo.value), f.st.locals, jo.memory), jo.savedV1))
  {
    var g := V.Running(f.pc + 1, J.State(IntStack(jo.value), f.st.locals, jo.memory), jo.savedV1);
    PopPushed(args, J.Empty);
    hide WholeMethod, V.ControlStep, Pushed, V.PopInts, Unit.BranchesHaveSlots, V.Reaches;
    MethodStep(x.Code(), x.java, f, callee, args, jo);
    ControlReaches(x, J.InvokeMethod(callee, |args|, jo.value.Some?), f, g);
  }

  /** The frame after the invocation. */
  lemma InvokeReaches(x: Emitted, at: nat, callee: Word, indirect: bool, args: seq<Word>, st: J.State, v1: Word, jo: V.JavaOutcome)
    requires x.u.BranchesHaveSlots() && at < |x.Code()| && x.Code()[at] == InvokeOf(x.u, callee, indirect)
    requires |args| == |x.u.env.Passed(callee, indirect)|
    requires st.stack == Pushed(args, CallStack(callee, indirect))
    requires x.java(callee, indirect, args, st.memory, v1) == Some(jo)
    requires jo.value.Some? == (x.u.env.Size(callee, indirect) >= 1)
    ensures V.Reaches(x.Code(), x.java, V.Running(at, st, v1), V.Running(at + 1, J.State(IntStack(jo.value), st.locals, jo.memory), jo.savedV1))
  {
    hide WholeMethod, Pushed, Unit.BranchesHaveSlots, V.Reaches, IntStack;
    if indirect {
      TableReaches(x, V.Running(at, st, v1), callee, args, jo);
    } else {
      MethodReaches(x, V.Running(at, st, v1), callee, args, jo);
    }
  }

  lemma TableStep(code: seq<J.Bytecode>, env: V.JavaCallees, f: V.Frame, callee: Word, args: seq<Word>, jo: V.JavaOutcome)
    requires f.Running? && |args| == 5 && V.PopInts(f.st.stack, 6) == Some(([callee] + args, J.Empty))
    requires env(callee, true, args, f.st.memory, f.savedV1) == Some(jo) && jo.value.Some?
    ensures V.ControlStep(code, env, J.InvokeTable, f) ==
            Some(V.Running(f.pc + 1, J.State(IntStack(jo.value), f.st.locals, jo.memory), jo.savedV1))
  {
    assert ([callee] + args)[1..] == args;
    hide V.PopInts;
  }

  lemma MethodStep(code: seq<J.Bytecode>, env: V.JavaCallees, f: V.Frame, callee: Word, args: seq<Word>, jo: V.JavaOutcome)
    requires f.Running? && V.PopInts(f.st.stack, |args|) == Some((args, J.Empty))
    requires env(callee, false, args, f.st.memory, f.savedV1) == Some(jo)
    ensures V.ControlStep(code, env, J.InvokeMethod(callee, |args|, jo.value.Some?), f) ==
            Some(V.Running(f.pc + 1, J.State(IntStack(jo.value), f.st.locals, jo.memory), jo.savedV1))
  {
    hide V.PopInts;
  }

  /** The memory a callee leaves, and every register it may change hidden. */
  lemma CallKeeps(c: Context, hid: Hidden, m: State, st: J.State, o: Outcome, s: J.Stack, memory: CRunTime.Memory)
    requires Seen(c, hid, m, st) && Holds(memory, o.mem, hid.words + o.saved)
    ensures Seen(c, Hidden(hid.words + o.saved, hid.regs + AllClobbered()), AfterCall(o, m), J.State(s, st.locals, memory))
  {
    hide Holds;
  }

  lemma SavedV1Reaches(x: Emitted, at: nat, st: J.State, v1: Word)
    requires x.u.BranchesHaveSlots() && V.Stands(x.Code(), at, [J.GetSavedV1])
    ensures V.Reaches(x.Code(), x.java, V.Running(at, st, v1), V.Running(at + 1, st.Push(J.Int(v1)), v1))
  {
    StandsAt(x.Code(), at, J.GetSavedV1);
    SavedV1Step(x.Code(), x.java, at, st, v1);
    hide *;
    ControlReaches(x, J.GetSavedV1, V.Running(at, st, v1), V.Running(at + 1, st.Push(J.Int(v1)), v1));
  }

  lemma SavedV1Step(code: seq<J.Bytecode>, env: V.JavaCallees, at: nat, st: J.State, v1: Word)
    ensures (J.GetSavedV1).IsControl()
    ensures V.ControlStep(code, env, J.GetSavedV1, V.Running(at, st, v1)) == Some(V.Running(at + 1, st.Push(J.Int(v1)), v1))
  {}

  /** A result moves from the operand stack to its register, which is no longer hidden if the result is known. */
  lemma ResultPops(x: Emitted, at: nat, r: Register, v: Word, s: J.Stack, hid: Hidden, known: bool, m: State, st: J.State, v1: Word) returns (end: J.State)
    requires x.u.BranchesHaveSlots() && V.Stands(x.Code(), at, PopRegister(x.u.c, r))
    requires ValidContext(x.u.c) && Seen(x.u.c, hid, m, st) && 1 <= r < 34 && x.u.c.Allocated(r) && st.stack == I(v, s)
    requires r in hid.regs && (known ==> v == m.regs[r])
    ensures V.Reaches(x.Code(), x.java, V.Running(at, st, v1), V.Running(at + |PopRegister(x.u.c, r)|, end, v1))
    ensures end.stack == s && Seen(x.u.c, Result(hid, r, known), m, end)
  {
    hide Seen, WholeMethod, V.Stands, V.Reaches, Runs, PopRegister, Unit.BranchesHaveSlots, ValidContext;
    end := SeenPop(x.u.c, hid, m, st, r, v, s);
    PartReaches(x, at, PopRegister(x.u.c, r), st, end, v1);
  }

  function Result(hid: Hidden, r: nat, known: bool): Hidden {
    if known then Without(hid, {r}) else hid
  }

  lemma ResultsAre(o: Outcome, size: nat, hid: Hidden)
    ensures var all := Hidden(hid.words + o.saved, hid.regs + AllClobbered());
            HiddenCall(o, size, hid) == Result(Result(all, R_V1, R_V1 in KnownResults(o, size)), R_V0, R_V0 in KnownResults(o, size)) &&
            R_V0 in all.regs && R_V1 in all.regs && R_V0 in Result(all, R_V1, R_V1 in KnownResults(o, size)).regs
    ensures size == 0 ==> R_V0 !in KnownResults(o, size)
    ensures size < 2 ==> R_V1 !in KnownResults(o, size)
  {}

  /** After the invocation, the results go to the result registers. */
  lemma ResultsReach(x: Emitted, at: nat, st: J.State, v1: Word, hid: Hidden, m: State, v: Option<Word>, size: nat, k0: bool, k1: bool) returns (end: J.State)
    requires x.u.BranchesHaveSlots() && V.Stands(x.Code(), at, PopResults(x.u.c, size)) && size <= 2
    requires ValidContext(x.u.c) && x.u.c.Allocated(R_V0) && x.u.c.Allocated(R_V1)
    requires Seen(x.u.c, hid, m, st) && R_V0 in hid.regs && R_V1 in hid.regs && R_V0 in Result(hid, R_V1, k1).regs
    requires st.stack == IntStack(v) && v.Some? == (size >= 1)
    requires (k0 ==> v == Some(m.regs[R_V0])) && (k1 ==> size == 2 && v1 == m.regs[R_V1])
    ensures V.Reaches(x.Code(), x.java, V.Running(at, st, v1), V.Running(at + |PopResults(x.u.c, size)|, end, v1))
    ensures end.stack == J.Empty && Seen(x.u.c, Result(Result(hid, R_V1, k1), R_V0, k0), m, end)
  {
    hide WholeMethod, V.Stands, V.Reaches, Runs, PopRegister, Unit.BranchesHaveSlots, ValidContext, Seen;
    if size == 2 {
      SplitStands(x.Code(), at, [J.GetSavedV1], PopRegister(x.u.c, R_V1), PopRegister(x.u.c, R_V0));
      SavedV1Reaches(x, at, st, v1);
      var st1 := st.Push(J.Int(v1));
      SeenAnyStack(x.u.c, hid, m, st, st1.stack);
      var st2 := ResultPops(x, at + 1, R_V1, v1, st.stack, hid, k1, m, st1, v1);
      var at2 := at + 1 + |PopRegister(x.u.c, R_V1)|;
      end := ResultPops(x, at2, R_V0, v.value, J.Empty, Result(hid, R_V1, k1), k0, m, st2, v1);
      V.ReachesThen(x.Code(), x.java, V.Running(at, st, v1), V.Running(at + 1, st1, v1), V.Running(at2, st2, v1));
      V.ReachesThen(x.Code(), x.java, V.Running(at, st, v1), V.Running(at2, st2, v1),
                    V.Running(at2 + |PopRegister(x.u.c, R_V0)|, end, v1));
    } else if size == 1 {
      end := ResultPops(x, at, R_V0, v.value, J.Empty, hid, k0, m, st, v1);
    } else {
      end := st;
      V.ReachesSelf(x.Code(), x.java, V.Running(at, st, v1));
    }
  }

  lemma CallParts(x: Emitted, at: nat, callee: Word, indirect: bool)
    requires x.u.BranchesHaveSlots() && V.Stands(x.Code(), at, CallCode(x.u, callee, indirect))
    ensures var regs := x.u.env.Passed(callee, indirect);
            V.Stands(x.Code(), at, PushAll(x.u.c, regs)) && at + |regs| < |x.Code()| &&
            x.Code()[at + |regs|] == InvokeOf(x.u, callee, indirect) &&
            V.Stands(x.Code(), at + |regs| + 1, PopResults(x.u.c, x.u.env.Size(callee, indirect))) &&
            |CallCode(x.u, callee, indirect)| == |regs| + 1 + |PopResults(x.u.c, x.u.env.Size(callee, indirect))|
  {
    hide WholeMethod, InvokeOf, PopResults, V.Stands, Unit.BranchesHaveSlots;
    var regs := x.u.env.Passed(callee, indirect);
    hide Callees.Passed, Callees.Size;
    SplitStands(x.Code(), at, PushAll(x.u.c, regs), [InvokeOf(x.u, callee, indirect)],
                PopResults(x.u.c, x.u.env.Size(callee, indirect)));
    StandsAt(x.Code(), at + |regs|, InvokeOf(x.u, callee, indirect));
  }

  lemma ArgumentsReadable(u: Unit, regs: seq<Register>)
    requires Covers(u.c, Jal(0)) && ArgumentRegisters(regs)
    ensures u.c.Allocated(R_V0) && u.c.Allocated(R_V1)
    ensures forall i :: 0 <= i < |regs| ==> regs[i] < 34 && Readable(u.c, regs[i])
  {
    assert forall r: Register :: r in {R_SP, R_A0, R_A1, R_A2, R_A3, R_V0, R_V1} ==> r in Touched(u.c, Jal(0));
    hide Touched;
  }

  /** The callee is invoked with what the locals hold, and its effect is the callee's effect. */
  lemma CallInvoked(x: Emitted, at: nat, callee: Word, indirect: bool, st: J.State, v1: Word, hid: Hidden, m: State, o: Outcome) returns (st2: J.State, v1': Word, v: Option<Word>)
    requires CalleesAgree(x) && x.u.BranchesHaveSlots() && ValidContext(x.u.c) && Covers(x.u.c, Jal(0))
    requires var regs := x.u.env.Passed(callee, indirect);
             ArgumentRegisters(regs) && x.u.env.effect(callee, indirect, Arguments(regs, m), m.mem) == Some(o) &&
             Insensitive(x.u.env, callee, indirect, m, hid) &&
             V.Stands(x.Code(), at, PushAll(x.u.c, regs)) && at + |regs| < |x.Code()| &&
             x.Code()[at + |regs|] == InvokeOf(x.u, callee, indirect)
    requires Seen(x.u.c, hid, m, st) && st.stack == CallStack(callee, indirect)
    ensures V.Reaches(x.Code(), x.java, V.Running(at, st, v1),
                      V.Running(at + |x.u.env.Passed(callee, indirect)| + 1, st2, v1'))
    ensures var size := x.u.env.Size(callee, indirect);
            st2.stack == IntStack(v) && v.Some? == (size >= 1) &&
            (R_V0 in KnownResults(o, size) ==> v == Some(o.regs[R_V0])) && (R_V1 in KnownResults(o, size) ==> v1' == o.regs[R_V1])
    ensures Seen(x.u.c, Hidden(hid.words + o.saved, hid.regs + AllClobbered()), AfterCall(o, m), st2)
  {
    var regs := x.u.env.Passed(callee, indirect);
    hide *;
    var args := ArgumentsReach(x, at, regs, st, v1, hid, m);
    var st1 := Stk(st, Pushed(args, st.stack));
    KeepsRest(st, Pushed(args, st.stack));
    SeenHolds(x.u.c, hid, m, st);
    var jo := Agreed(x, callee, indirect, args, m, st.memory, hid, v1, o);
    v := jo.value;
    InvokeReaches(x, at + |regs|, callee, indirect, args, st1, v1, jo);
    st2, v1' := J.State(IntStack(jo.value), st.locals, jo.memory), jo.savedV1;
    CallKeeps(x.u.c, hid, m, st, o, IntStack(jo.value), jo.memory);
    V.ReachesThen(x.Code(), x.java, V.Running(at, st, v1), V.Running(at + |regs|, st1, v1), V.Running(at + |regs| + 1, st2, v1'));
  }

  lemma ArgumentsReach(x: Emitted, at: nat, regs: seq<Register>, st: J.State, v1: Word, hid: Hidden, m: State) returns (args: seq<Word>)
    requires x.u.BranchesHaveSlots() && ValidContext(x.u.c) && Covers(x.u.c, Jal(0)) && Seen(x.u.c, hid, m, st)
    requires ArgumentRegisters(regs) && V.Stands(x.Code(), at, PushAll(x.u.c, regs))
    ensures SameArguments(regs, hid, Arguments(regs, m), args) && |args| == |regs|
    ensures V.Reaches(x.Code(), x.java, V.Running(at, st, v1), V.Running(at + |regs|, Stk(st, Pushed(args, st.stack)), v1))
  {
    hide *;
    ArgumentsReadable(x.u, regs);
    args := PushAllRuns(x.u.c, hid, m, st, regs, st.stack);
    SameStack(st);
    PartReaches(x, at, PushAll(x.u.c, regs), st, Stk(st, Pushed(args, st.stack)), v1);
  }

  /** A call, and its results in the result registers. */
  lemma CallReaches(x: Emitted, at: nat, callee: Word, indirect: bool, st: J.State, v1: Word, hid: Hidden, m: State, o: Outcome) returns (g: V.Frame)
    requires CalleesAgree(x) && x.u.BranchesHaveSlots() && V.Stands(x.Code(), at, CallCode(x.u, callee, indirect))
    requires ValidContext(x.u.c) && Covers(x.u.c, Jal(0))
    requires Seen(x.u.c, hid, m, st) && st.stack == CallStack(callee, indirect)
    requires var regs := x.u.env.Passed(callee, indirect);
             ArgumentRegisters(regs) && x.u.env.effect(callee, indirect, Arguments(regs, m), m.mem) == Some(o) &&
             Insensitive(x.u.env, callee, indirect, m, hid)
    requires x.u.env.Size(callee, indirect) <= 2
    ensures V.Reaches(x.Code(), x.java, V.Running(at, st, v1), g)
    ensures g.Running? && g.pc == at + |CallCode(x.u, callee, indirect)| && g.st.stack == J.Empty
    ensures Seen(x.u.c, HiddenCall(o, x.u.env.Size(callee, indirect), hid), AfterCall(o, m), g.st)
  {
    hide *;
    CallParts(x, at, callee, indirect);
    ArgumentsReadable(x.u, x.u.env.Passed(callee, indirect));
    var size, at2 := x.u.env.Size(callee, indirect), at + |x.u.env.Passed(callee, indirect)| + 1;
    var st2, v1', v := CallInvoked(x, at, callee, indirect, st, v1, hid, m, o);
    ResultsAre(o, size, hid);
    LeftByCallee(o, m);
    KnownNeeds(o, size);
    var all := Hidden(hid.words + o.saved, hid.regs + AllClobbered());
    var end := ResultsReach(x, at2, st2, v1', all, AfterCall(o, m), v, size, R_V0 in KnownResults(o, size), R_V1 in KnownResults(o, size));
    g := V.Running(at + |CallCode(x.u, callee, indirect)|, end, v1');
    V.ReachesThen(x.Code(), x.java, V.Running(at, st, v1), V.Running(at2, st2, v1'), g);
  }

  lemma LeftByCallee(o: Outcome, m: State)
    ensures AfterCall(o, m).regs[R_V0] == o.regs[R_V0] && AfterCall(o, m).regs[R_V1] == o.regs[R_V1]
  {}

  lemma KnownNeeds(o: Outcome, size: nat)
    ensures R_V1 in KnownResults(o, size) ==> size == 2
  {}

  lemma SameStack(st: J.State)
    ensures Stk(st, st.stack) == st
  {}

  lemma KeepsRest(st: J.State, s: J.Stack)
    ensures Stk(st, s).locals == st.locals && Stk(st, s).memory == st.memory && Stk(st, s).stack == s
  {}

  /** Callees that agree on the memories they are given agree wherever the effect does not depend on what is hidden. */
  lemma Agreed(x: Emitted, callee: Word, indirect: bool, args: seq<Word>, m: State, words: CRunTime.Memory, hid: Hidden, v1: Word, o: Outcome) returns (jo: V.JavaOutcome)
    requires CalleesAgree(x) && ArgumentRegisters(x.u.env.Passed(callee, indirect)) && Holds(words, m.mem, hid.words)
    requires var regs := x.u.env.Passed(callee, indirect);
             SameArguments(regs, hid, Arguments(regs, m), args) &&
             x.u.env.effect(callee, indirect, Arguments(regs, m), m.mem) == Some(o) && Insensitive(x.u.env, callee, indirect, m, hid)
    ensures x.java(callee, indirect, args, words, v1) == Some(jo) && Holds(jo.memory, o.mem, hid.words + o.saved)
    ensures var size := x.u.env.Size(callee, indirect);
            jo.value.Some? == (size >= 1) && (R_V0 in KnownResults(o, size) ==> jo.value == Some(o.regs[R_V0])) &&
            (R_V1 in KnownResults(o, size) ==> jo.savedV1 == o.regs[R_V1])
  {
    HeldOutside(words, m.mem, hid.words);
    assert CallAgrees(x, callee, indirect, args, words, v1);
    hide Holds, AgreeOutside, SameArguments, Bytes, KnownResults, Callees.Size, Callees.Passed, CalleesAgree;
    var p := x.u.env.effect(callee, indirect, args, Bytes(words)).value;
    jo := x.java(callee, indirect, args, words, v1).value;
    HeldBy(jo.memory, o.mem, p.mem, p.saved, hid.words + o.saved);
    assert p.saved + (hid.words + o.saved) == hid.words + o.saved;
    MoreKnown(o, p, x.u.env.Size(callee, indirect));
  }

  lemma MoreKnown(o: Outcome, p: Outcome, size: nat)
    requires o.known <= p.known
    ensures KnownResults(o, size) <= KnownResults(p, size)
    ensures forall r :: r in KnownResults(o, size) ==> r in o.known && r < 34
  {}

  predicate Calls(u: Unit, insn: Insn) {
    insn.Jal? || insn.Jalr? || (insn.Jump? && u.p.IndexOf(insn.target) == None)
  }

  function CalleeOf(insn: Insn, m: State): Word {
    match insn
    case Jal(t) => t
    case Jump(t) => t
    case Jalr(rs) => m.Reg(rs)
    case _ => 0
  }

  function CallPre(c: Context, insn: Insn): seq<J.Bytecode> {
    if insn.Jalr? then [PushRegister(c, insn.rs)] else []
  }

  function CallPost(insn: Insn): seq<J.Bytecode> {
    if insn.Jump? then [J.Goto(J.FunctionReturn)] else []
  }

  lemma CallShape(u: Unit, k: nat, callee: Word)
    requires u.BranchesHaveSlots() && k < |u.p.insns| && Calls(u, u.p.insns[k]) && InsnOk(u, k)
    requires !u.p.insns[k].Jalr? ==> callee == CalleeOf(u.p.insns[k], State(seq(34, _ => 0), []))
    ensures k + 1 < |u.p.insns| && !u.p.insns[k + 1].IsBranch() && Covers(u.c, Jal(0))
    ensures u.p.insns[k].Jalr? ==> Readable(u.c, u.p.insns[k].rs)
    ensures var insn := u.p.insns[k];
            BranchCode(u, k) == CallPre(u.c, insn) + Code(u.c, u.p.insns[k + 1])
            + (CallCode(u, callee, insn.Jalr?) + CallPost(insn))
  {
    var insn := u.p.insns[k];
    CallCovers(u.c, Compiled(u.p, insn));
    if insn.Jalr? {
      assert CallCode(u, callee, true) == CallCode(u, 0, true) by { hide PushAll, PopResults; }
    }
    hide Code, CallCode, PushRegister, Touched, Readable, Covers, Unit.BranchesHaveSlots;
    var d := Code(u.c, u.p.insns[k + 1]);
    Regrouped(d, CallCode(u, callee, insn.Jalr?), CallPost(insn));
  }

  lemma Regrouped(a: seq<J.Bytecode>, b: seq<J.Bytecode>, d: seq<J.Bytecode>)
    ensures a + b + d == [] + a + (b + d)
  {}

  lemma CallCovers(c: Context, insn: Insn)
    ensures insn.Jal? && Covers(c, insn) ==> Covers(c, Jal(0))
    ensures insn.Jalr? && Covers(c, insn) ==> Covers(c, Jal(0)) && (insn.rs != R_RA ==> Readable(c, insn.rs))
  {
    if insn.Jalr? && Covers(c, insn) && insn.rs != R_RA {
      assert insn.rs == 0 || insn.rs in Touched(c, insn);
      ReadableField(c, insn, insn.rs);
    }
    assert forall t: Word :: Touched(c, Jal(t)) == Touched(c, Jal(0));
    assert insn.Jalr? ==> Touched(c, Jal(0)) <= Touched(c, insn);
    hide Touched, Readable;
  }

  lemma CallOperand(x: Emitted, st: J.State, hid: Hidden, m: State, insn: Insn)
    requires ValidContext(x.u.c) && Seen(x.u.c, hid, m, st) && st.stack == J.Empty
    requires insn.Jalr? ==> Readable(x.u.c, insn.rs) && Known(hid, insn.rs)
    ensures Runs(CallPre(x.u.c, insn), st, Stk(st, CallStack(CalleeOf(insn, m), insn.Jalr?)))
  {
    assert Stk(st, J.Empty) == st;
    hide Seen, Runs, PushRegister, Readable, Known;
    if insn.Jalr? {
      var v := SeenPush(x.u.c, hid, m, st, insn.rs, J.Empty);
    } else {
      NothingPushed(st);
    }
  }

  lemma StandsBoth(code: seq<J.Bytecode>, at: nat, a: seq<J.Bytecode>, b: seq<J.Bytecode>)
    requires V.Stands(code, at, a + b)
    ensures V.Stands(code, at, a) && V.Stands(code, at + |a|, b)
  {
    assert a + b == a + b + [];
    hide V.Stands;
    SplitStands(code, at, a, b, []);
  }

  /** Direct calls, indirect calls and tail calls. */
  lemma CallLands(x: Emitted, f: V.Frame, k: nat, m: State, hid: Hidden, m2: State, callee: Word, o: Outcome) returns (g: V.Frame)
    requires Ready(x) && CalleesAgree(x) && k + 1 < |x.u.p.insns| && Calls(x.u, x.u.p.insns[k]) && !x.u.p.insns[k + 1].IsBranch()
    requires Landed(x, f, x.u.p.AddressOf(k), m, hid) && callee == CalleeOf(x.u.p.insns[k], m) && DecidesOnKnown(x.u.p.insns[k], hid)
    requires var m1 := Linked(x.u.p.AddressOf(k), x.u.p.insns[k], m);
             Allowed(x.u.c, x.u.p.insns[k + 1], m1, hid) && Execute(x.u.p.insns[k + 1], m1) == Some(m2)
    requires var indirect := x.u.p.insns[k].Jalr?;
             var regs := x.u.env.Passed(callee, indirect);
             var hid2 := HiddenAfter(x.u.c, x.u.p.insns[k + 1], Linked(x.u.p.AddressOf(k), x.u.p.insns[k], m), hid);
             ArgumentRegisters(regs) && x.u.env.effect(callee, indirect, Arguments(regs, m2), m2.mem) == Some(o) &&
             Insensitive(x.u.env, callee, indirect, m2, hid2) && x.u.env.Size(callee, indirect) <= 2
    ensures V.Reaches(x.Code(), x.java, f, g)
    ensures var hid2 := HiddenAfter(x.u.c, x.u.p.insns[k + 1], Linked(x.u.p.AddressOf(k), x.u.p.insns[k], m), hid);
            var back := if x.u.p.insns[k].Jump? then x.u.p.link else x.u.p.AddressOf(k + 2);
            Reachable(x.u, back) ==>
              Landed(x, g, back, AfterCall(o, m2), HiddenCall(o, x.u.env.Size(callee, x.u.p.insns[k].Jalr?), hid2))
  {
    hide *;
    CallIsBranch(x.u, x.u.p.insns[k]);
    BranchParts(x, k);
    DirectCallee(x.u.p.insns[k], m);
    CallShape(x.u, k, callee);
    LandedAtInsn(x, f, k, m, hid);
    var insn, m1 := x.u.p.insns[k], Linked(x.u.p.AddressOf(k), x.u.p.insns[k], m);
    var hid2, m3 := HiddenAfter(x.u.c, x.u.p.insns[k + 1], m1, hid), AfterCall(o, m2);
    DecidedCall(insn, hid);
    CallOperand(x, f.st, hid, m, insn);
    var at, st := BranchHead(x, f, k, m, hid, m2, CallPre(x.u.c, insn), CallStack(callee, insn.Jalr?),
                             CallCode(x.u, callee, insn.Jalr?) + CallPost(insn));
    StandsBoth(x.Code(), at, CallCode(x.u, callee, insn.Jalr?), CallPost(insn));
    var h := CallReaches(x, at, callee, insn.Jalr?, st, f.savedV1, hid2, m2, o);
    var hid3 := HiddenCall(o, x.u.env.Size(callee, insn.Jalr?), hid2);
    V.ReachesThen(x.Code(), x.java, f, V.Running(at, st, f.savedV1), h);
    PostIs(insn);
    if insn.Jump? {
      GotoReaches(x, h.pc, J.FunctionReturn, h.st, h.savedV1);
      g := V.Running(V.Position(x.Code(), J.FunctionReturn), h.st, h.savedV1);
      LandsAtLink(x, g, m3, hid3);
    } else {
      g := PastBranch(x, k, h.st, h.savedV1, m3, hid3);
    }
    V.ReachesThen(x.Code(), x.java, f, h, g);
  }

  lemma DecidedCall(insn: Insn, hid: Hidden)
    requires DecidesOnKnown(insn, hid)
    ensures insn.Jalr? ==> Known(hid, insn.rs)
    ensures insn.Jr? && insn.rs != R_RA ==> Known(hid, insn.rs)
  {
    hide Known;
  }

  lemma CallIsBranch(u: Unit, insn: Insn)
    ensures Calls(u, insn) ==> insn.IsBranch()
  {}

  lemma DirectCallee(insn: Insn, m: State)
    ensures !insn.Jalr? ==> CalleeOf(insn, m) == CalleeOf(insn, State(seq(34, _ => 0), []))
  {}

  lemma PostIs(insn: Insn)
    ensures CallPost(insn) == if insn.Jump? then [J.Goto(J.FunctionReturn)] else []
  {}

  // ----- the return -----

  /** At the return label the method returns the result registers. */
  lemma ReturnFinishes(x: Emitted, f: V.Frame, m: State, hid: Hidden)
    requires Ready(x) && Landed(x, f, x.u.p.link, m, hid)
    ensures Finishes(x, f, m, hid)
  {
    hide *;
    ReturnFacts(x);
    AtReturn(x, f, m, hid);
    ReturnStands(x.u, x.prefix);
    CodeIs(x);
    LabelReaches(x, f.pc, J.FunctionReturn, f.st, f.savedV1);
    var g := EpilogueReturns(x, f.pc + 1, f.st, f.savedV1, m, hid);
    V.ReachesThen(x.Code(), x.java, f, V.Running(f.pc + 1, f.st, f.savedV1), g);
    FinishesWith(x, f, g, m, hid);
  }

  lemma ReturnFacts(x: Emitted)
    requires Ready(x)
    ensures x.u.BranchesHaveSlots() && x.u.p.WellPlaced() && NoLabels(x.prefix) && ValidContext(x.u.c) && x.u.size <= 2
    ensures x.u.size >= 1 ==> Readable(x.u.c, R_V0)
    ensures x.u.size == 2 ==> Readable(x.u.c, R_V1)
  {
    hide ValidContext, Admissible, Covered, NoLabels;
  }

  lemma AtReturn(x: Emitted, f: V.Frame, m: State, hid: Hidden)
    requires x.u.BranchesHaveSlots() && x.u.p.WellPlaced() && Landed(x, f, x.u.p.link, m, hid)
    ensures f.Running? && f.st.stack == J.Empty && Seen(x.u.c, hid, m, f.st) && f.pc == V.Position(x.Code(), J.FunctionReturn)
  {
    hide Seen, WholeMethod, V.Position, Unit.BranchesHaveSlots;
  }

  lemma FinishesWith(x: Emitted, f: V.Frame, g: V.Frame, m: State, hid: Hidden)
    requires x.u.BranchesHaveSlots() && V.Reaches(x.Code(), x.java, f, g) && ReturnedWith(x, g, m, hid)
    ensures Finishes(x, f, m, hid)
  {
    hide V.Reaches, ReturnedWith, WholeMethod;
  }

  lemma PutStep(code: seq<J.Bytecode>, env: V.JavaCallees, at: nat, st: J.State, v1: Word, v: Word)
    ensures (J.PutSavedV1).IsControl()
    ensures V.ControlStep(code, env, J.PutSavedV1, V.Running(at, Stk(st, I(v, J.Empty)), v1)) ==
            Some(V.Running(at + 1, Stk(st, J.Empty), v))
  {}

  lemma ReturnStep(code: seq<J.Bytecode>, env: V.JavaCallees, at: nat, st: J.State, v1: Word, v: Word)
    ensures (J.Ireturn).IsControl() && (J.Return).IsControl()
    ensures V.ControlStep(code, env, J.Ireturn, V.Running(at, Stk(st, I(v, J.Empty)), v1)) == Some(V.Returned(Some(v), v1, st.memory))
    ensures V.ControlStep(code, env, J.Return, V.Running(at, st, v1)) == Some(V.Returned(None, v1, st.memory))
  {}

  /** `$v1` goes to the static. */
  lemma SecondResult(x: Emitted, at: nat, st: J.State, v1: Word, m: State, hid: Hidden) returns (v: Word)
    requires x.u.BranchesHaveSlots() && ValidContext(x.u.c) && Readable(x.u.c, R_V1)
    requires Seen(x.u.c, hid, m, st) && st.stack == J.Empty
    requires V.Stands(x.Code(), at, [PushRegister(x.u.c, R_V1), J.PutSavedV1])
    ensures V.Reaches(x.Code(), x.java, V.Running(at, st, v1), V.Running(at + 2, st, v)) && (Known(hid, R_V1) ==> v == m.Reg(R_V1))
  {
    hide *;
    var a, b := [PushRegister(x.u.c, R_V1)], [J.PutSavedV1];
    assert [PushRegister(x.u.c, R_V1), J.PutSavedV1] == a + b;
    StandsBoth(x.Code(), at, a, b);
    EmptyStack(st);
    ResultNumbers();
    v := SeenPush(x.u.c, hid, m, st, R_V1, J.Empty);
    var st1 := Stk(st, I(v, J.Empty));
    PartReaches(x, at, a, st, st1, v1);
    StandsAt(x.Code(), at + 1, J.PutSavedV1);
    PutStep(x.Code(), x.java, at + 1, st, v1, v);
    ControlReaches(x, J.PutSavedV1, V.Running(at + 1, st1, v1), V.Running(at + 2, st, v));
    V.ReachesThen(x.Code(), x.java, V.Running(at, st, v1), V.Running(at + 1, st1, v1), V.Running(at + 2, st, v));
  }

  lemma ResultNumbers()
    ensures R_V0 < 34 && R_V1 < 34
  {}

  lemma FirstResult(x: Emitted, at: nat, st: J.State, v1: Word, m: State, hid: Hidden) returns (v: Word)
    requires x.u.BranchesHaveSlots() && ValidContext(x.u.c) && Readable(x.u.c, R_V0)
    requires Seen(x.u.c, hid, m, st) && st.stack == J.Empty
    requires V.Stands(x.Code(), at, [PushRegister(x.u.c, R_V0), J.Ireturn])
    ensures V.Reaches(x.Code(), x.java, V.Running(at, st, v1), V.Returned(Some(v), v1, st.memory))
    ensures Known(hid, R_V0) ==> v == m.Reg(R_V0)
  {
    hide *;
    var a, b := [PushRegister(x.u.c, R_V0)], [J.Ireturn];
    assert [PushRegister(x.u.c, R_V0), J.Ireturn] == a + b;
    StandsBoth(x.Code(), at, a, b);
    EmptyStack(st);
    ResultNumbers();
    v := SeenPush(x.u.c, hid, m, st, R_V0, J.Empty);
    var st1 := Stk(st, I(v, J.Empty));
    PartReaches(x, at, a, st, st1, v1);
    StandsAt(x.Code(), at + 1, J.Ireturn);
    ReturnStep(x.Code(), x.java, at + 1, st, v1, v);
    ControlReaches(x, J.Ireturn, V.Running(at + 1, st1, v1), V.Returned(Some(v), v1, st.memory));
    V.ReachesThen(x.Code(), x.java, V.Running(at, st, v1), V.Running(at + 1, st1, v1), V.Returned(Some(v), v1, st.memory));
  }

  lemma NoResult(x: Emitted, at: nat, st: J.State, v1: Word)
    requires x.u.BranchesHaveSlots() && V.Stands(x.Code(), at, [J.Return])
    ensures V.Reaches(x.Code(), x.java, V.Running(at, st, v1), V.Returned(None, v1, st.memory))
  {
    hide *;
    StandsAt(x.Code(), at, J.Return);
    ReturnStep(x.Code(), x.java, at, st, v1, 0);
    ControlReaches(x, J.Return, V.Running(at, st, v1), V.Returned(None, v1, st.memory));
  }

  lemma EpilogueReturns(x: Emitted, at: nat, st: J.State, v1: Word, m: State, hid: Hidden) returns (g: V.Frame)
    requires x.u.BranchesHaveSlots() && ValidContext(x.u.c) && Seen(x.u.c, hid, m, st) && st.stack == J.Empty
    requires x.u.size <= 2 && (x.u.size >= 1 ==> Readable(x.u.c, R_V0)) && (x.u.size == 2 ==> Readable(x.u.c, R_V1))
    requires V.Stands(x.Code(), at, ReturnCode(x.u.c, x.u.size))
    ensures V.Reaches(x.Code(), x.java, V.Running(at, st, v1), g) && ReturnedWith(x, g, m, hid)
  {
    SeenHolds(x.u.c, hid, m, st);
    hide Seen, V.Stands, V.Reaches, ValidContext, WholeMethod, Readable, PushRegister, Unit.BranchesHaveSlots, Holds;
    if x.u.size == 2 {
      StandsBoth(x.Code(), at, [PushRegister(x.u.c, R_V1), J.PutSavedV1], [PushRegister(x.u.c, R_V0), J.Ireturn]);
      var second := SecondResult(x, at, st, v1, m, hid);
      var first := FirstResult(x, at + 2, st, second, m, hid);
      g := V.Returned(Some(first), second, st.memory);
      V.ReachesThen(x.Code(), x.java, V.Running(at, st, v1), V.Running(at + 2, st, second), g);
    } else if x.u.size == 1 {
      assert ReturnCode(x.u.c, 1) == [PushRegister(x.u.c, R_V0), J.Ireturn];
      var first := FirstResult(x, at, st, v1, m, hid);
      g := V.Returned(Some(first), v1, st.memory);
    } else {
      assert ReturnCode(x.u.c, 0) == [J.Return];
      NoResult(x, at, st, v1);
      g := V.Returned(None, v1, st.memory);
    }
  }

  // ----- the reference machine around a branch -----

  lemma StraightStep(p: Method, env: Callees, a: Word, m: State)
    requires p.WellPlaced() && p.IndexOf(a).Some? && !p.insns[p.IndexOf(a).value].IsBranch() && Step(p, env, Start(a, m)).Some?
    ensures var k := p.IndexOf(a).value;
            p.AddressOf(k) == a && Execute(p.insns[k], m).Some? &&
            Step(p, env, Start(a, m)) == Some(Start(p.AddressOf(k + 1), Execute(p.insns[k], m).value))
  {
    IndexAddress(p, a);
    AddressIndex(p, p.IndexOf(a).value);
    hide Execute;
  }

  lemma BranchStep(p: Method, env: Callees, a: Word, m: State)
    requires p.WellPlaced() && p.IndexOf(a).Some? && p.insns[p.IndexOf(a).value].IsBranch()
    ensures var k := p.IndexOf(a).value;
            p.AddressOf(k) == a &&
            Step(p, env, Start(a, m)) ==
            Some(Machine(At(p.AddressOf(k + 1)), Destination(p, a, p.insns[k], m), Linked(a, p.insns[k], m)))
  {
    IndexAddress(p, a);
    AddressIndex(p, p.IndexOf(a).value);
    hide Execute, Destination, Linked;
  }

  lemma SlotStep(p: Method, env: Callees, k: nat, d: Target, m: State)
    requires p.WellPlaced() && k < |p.insns| && !p.insns[k].IsBranch()
    ensures var s := Machine(At(p.AddressOf(k)), d, m);
            Step(p, env, s).Some? ==>
              Execute(p.insns[k], m).Some? && Step(p, env, s).value.pc == d && Step(p, env, s).value.m == Execute(p.insns[k], m).value &&
              (d.At? ==> Step(p, env, s).value == Start(d.address, Execute(p.insns[k], m).value))
  {
    AddressIndex(p, k);
    hide Execute;
  }

  lemma CallStep(p: Method, env: Callees, s: Machine)
    requires s.pc.Call? && Step(p, env, s).Some?
    ensures var regs := env.Passed(s.pc.callee, s.pc.indirect);
            ArgumentRegisters(regs) &&
            var o := env.effect(s.pc.callee, s.pc.indirect, Arguments(regs, s.m), s.m.mem);
            o.Some? &&
            Step(p, env, s).value == Start(s.m.Reg(R_RA), AfterCall(o.value, s.m))
  {
    hide AfterCall, Callees.Passed, Callees.Size;
  }

  // ----- one instruction with its slot -----

  /** Branches that are not calls. */
  lemma BranchLands(x: Emitted, f: V.Frame, k: nat, m: State, hid: Hidden, m2: State) returns (g: V.Frame)
    requires Ready(x) && k + 1 < |x.u.p.insns| && x.u.p.insns[k].IsBranch() && !x.u.p.insns[k + 1].IsBranch()
    requires !Calls(x.u, x.u.p.insns[k]) && Landed(x, f, x.u.p.AddressOf(k), m, hid)
    requires var insn := x.u.p.insns[k];
             DecidesOnKnown(insn, hid) &&
             (insn.Jr? ==> m.Reg(insn.rs) == x.u.p.link || (insn.rs != R_RA && m.Reg(insn.rs) in x.u.p.table))
    requires Allowed(x.u.c, x.u.p.insns[k + 1], m, hid) && Execute(x.u.p.insns[k + 1], m) == Some(m2)
    ensures V.Reaches(x.Code(), x.java, f, g) && Linked(x.u.p.AddressOf(k), x.u.p.insns[k], m) == m
    ensures var t := Destination(x.u.p, x.u.p.AddressOf(k), x.u.p.insns[k], m);
            t.At? && (Reachable(x.u, t.address) ==> Landed(x, g, t.address, m2, HiddenAfter(x.u.c, x.u.p.insns[k + 1], m, hid)))
  {
    WrapsTwo(x, k);
    DecidedCall(x.u.p.insns[k], hid);
    hide Ready, Landed, Allowed, Execute, Reachable, HiddenAfter, V.Reaches, WholeMethod, Unit.BranchesHaveSlots, Taken;
    match x.u.p.insns[k]
    case Branch(_, _, _, _) => g := IfLands(x, f, k, m, hid, m2);
    case Jump(_) => g := JumpLands(x, f, k, m, hid, m2);
    case Jr(rs) =>
      if rs == R_RA {
        g := ReturnLands(x, f, k, m, hid, m2);
      } else {
        g := TableLands(x, f, k, m, hid, m2);
      }
  }

  lemma WrapsTwo(x: Emitted, k: nat)
    requires Ready(x) && k < |x.u.p.insns|
    ensures x.u.BranchesHaveSlots() && Wrap(x.u.p.AddressOf(k) + 8) == x.u.p.AddressOf(k + 2)
  {
    AddressIndex(x.u.p, k);
    hide ValidContext, Admissible, Covered, NoLabels;
  }

  // ----- the method theorem -----

  lemma FinishesAfter(x: Emitted, f: V.Frame, g: V.Frame, m: State, hid: Hidden)
    requires x.u.BranchesHaveSlots() && V.Reaches(x.Code(), x.java, f, g) && Finishes(x, g, m, hid)
    ensures Finishes(x, f, m, hid)
  {
    hide V.Reaches, ReturnedWith, WholeMethod;
    var h :| V.Reaches(x.Code(), x.java, g, h) && ReturnedWith(x, h, m, hid);
    V.ReachesThen(x.Code(), x.java, f, g, h);
  }

  /** Every complete run of the MIPS method, from any instruction boundary to its return, is followed by the
      emitted method, which returns the same results and leaves the same memory. */
  lemma {:induction false} RunCorrect(x: Emitted, f: V.Frame, a: Word, m: State, hid: Hidden, n: nat)
    requires Ready(x) && CalleesAgree(x) && x.u.BranchesHaveSlots() && (Reachable(x.u, a) ==> Landed(x, f, a, m, hid))
    requires Run(x.u.p, x.u.env, Start(a, m), n).Some?
    requires Run(x.u.p, x.u.env, Start(a, m), n).value.pc == At(x.u.p.link)
    requires HonestRun(x.u, Start(a, m), hid, n)
    ensures Finishes(x, f, Run(x.u.p, x.u.env, Start(a, m), n).value.m, HiddenRun(x.u, Start(a, m), hid, n))
    decreases n, 1
  {
    hide *;
    RunNext(x.u, Start(a, m), hid, n);
    RunReachable(x.u, a, m, hid, n) by { ReadyPlaced(x); }
    if n == 0 {
      ReturnFinishes(x, f, m, hid);
    } else {
      var k := x.u.p.IndexOf(a).value;
      ReadyPlaced(x);
      IndexAddress(x.u.p, a);
      HonestAt(x.u, a, m, hid);
      if x.u.p.insns[k].IsBranch() {
        BranchRunCorrect(x, f, k, m, hid, n);
      } else {
        StraightStep(x.u.p, x.u.env, a, m);
        var g := OneLands(x, f, k, m, hid);
        RunCorrect(x, g, x.u.p.AddressOf(k + 1), Execute(x.u.p.insns[k], m).value,
                   HiddenAfter(x.u.c, x.u.p.insns[k], m, hid), n - 1);
        FinishesAfter(x, f, g, Run(x.u.p, x.u.env, Start(a, m), n).value.m, HiddenRun(x.u, Start(a, m), hid, n));
      }
    }
  }

  /** An instruction that is not a branch, wherever it was reached. */
  lemma OneLands(x: Emitted, f: V.Frame, k: nat, m: State, hid: Hidden) returns (g: V.Frame)
    requires Ready(x) && x.u.BranchesHaveSlots() && k < |x.u.p.insns| && !x.u.p.insns[k].IsBranch() && IsEmitted(x.u, k)
    requires Landed(x, f, x.u.p.AddressOf(k), m, hid) && Allowed(x.u.c, x.u.p.insns[k], m, hid)
    requires Execute(x.u.p.insns[k], m).Some?
    ensures V.Reaches(x.Code(), x.java, f, g)
    ensures Reachable(x.u, x.u.p.AddressOf(k + 1)) ==>
              Landed(x, g, x.u.p.AddressOf(k + 1), Execute(x.u.p.insns[k], m).value, HiddenAfter(x.u.c, x.u.p.insns[k], m, hid))
  {
    hide Ready, Landed, Allowed, Execute, Reachable, HiddenAfter, V.Reaches, WholeMethod, Unit.BranchesHaveSlots, IsEmitted;
    var m' := Execute(x.u.p.insns[k], m).value;
    if x.u.IsSlot(k) {
      g := SlotLands(x, f, k - 1, m, hid, m');
    } else {
      g := StraightLands(x, f, k, m, hid, m');
    }
  }

  lemma ReadyPlaced(x: Emitted)
    requires Ready(x)
    ensures x.u.p.WellPlaced() && forall callee, indirect :: x.u.env.Size(callee, indirect) <= 2
  {
    hide ValidContext, Admissible, Covered, NoLabels, Unit.BranchesHaveSlots;
    hide Method.WellPlaced;
  }

  /** What a run of at least one step is made of. */
  lemma RunNext(u: Unit, s: Machine, hid: Hidden, n: nat)
    requires Run(u.p, u.env, s, n).Some? && HonestRun(u, s, hid, n)
    ensures n == 0 ==> Run(u.p, u.env, s, n) == Some(s) && HiddenRun(u, s, hid, n) == hid
    ensures n > 0 ==> Step(u.p, u.env, s).Some? && Honest(u, s, hid)
    ensures n > 0 ==>
              var s' := Step(u.p, u.env, s).value;
              Run(u.p, u.env, s, n) == Run(u.p, u.env, s', n - 1) &&
              HonestRun(u, s', HiddenStep(u, s, hid), n - 1) &&
              HiddenRun(u, s, hid, n) == HiddenRun(u, s', HiddenStep(u, s, hid), n - 1)
  {
    hide Step, Honest, HiddenStep;
  }

  /** A complete run starts inside the method or is over. */
  lemma RunReachable(u: Unit, a: Word, m: State, hid: Hidden, n: nat)
    requires u.p.WellPlaced() && Run(u.p, u.env, Start(a, m), n).Some? && Run(u.p, u.env, Start(a, m), n).value.pc == At(u.p.link)
    requires HonestRun(u, Start(a, m), hid, n)
    ensures Reachable(u, a) && (n > 0 ==> u.p.IndexOf(a).Some?) && (n == 0 ==> a == u.p.link)
    ensures Start(a, m).m == m
  {
    hide Execute, Destination, Linked, Allowed, HiddenStep, DecidesOnKnown;
  }

  lemma HonestAt(u: Unit, a: Word, m: State, hid: Hidden)
    requires u.p.WellPlaced() && u.p.IndexOf(a).Some?
    ensures u.p.IndexOf(a).value < |u.p.insns|
    ensures var insn := u.p.insns[u.p.IndexOf(a).value];
            Honest(u, Start(a, m), hid) ==>
              IsEmitted(u, u.p.IndexOf(a).value) && (if insn.IsBranch() then DecidesOnKnown(insn, hid) else Allowed(u.c, insn, m, hid)) &&
              (insn.Jr? ==> m.Reg(insn.rs) == u.p.link || (insn.rs != R_RA && m.Reg(insn.rs) in u.p.table))
    ensures var insn := u.p.insns[u.p.IndexOf(a).value];
            HiddenStep(u, Start(a, m), hid) == if insn.IsBranch() then hid else HiddenAfter(u.c, insn, m, hid)
  {
    hide Allowed, HiddenAfter, DecidesOnKnown;
  }

  lemma HonestSlot(u: Unit, k: nat, d: Target, m: State, hid: Hidden)
    requires u.p.WellPlaced() && k < |u.p.insns| && !u.p.insns[k].IsBranch()
    ensures var s := Machine(At(u.p.AddressOf(k)), d, m);
            (Honest(u, s, hid) ==> Allowed(u.c, u.p.insns[k], m, hid)) &&
            HiddenStep(u, s, hid) == HiddenAfter(u.c, u.p.insns[k], m, hid) && s.pc != At(u.p.link)
  {
    AddressIndex(u.p, k);
    hide Allowed, HiddenAfter, DecidesOnKnown;
  }

  lemma HonestCall(u: Unit, s: Machine, hid: Hidden)
    requires s.pc.Call? && Step(u.p, u.env, s).Some? && Honest(u, s, hid)
    ensures s.m.Reg(R_RA) == s.pc.back
    ensures var regs := u.env.Passed(s.pc.callee, s.pc.indirect);
            ArgumentRegisters(regs) &&
            var o := u.env.effect(s.pc.callee, s.pc.indirect, Arguments(regs, s.m), s.m.mem);
            o.Some? && HiddenStep(u, s, hid) == HiddenCall(o.value, u.env.Size(s.pc.callee, s.pc.indirect), hid) &&
            Insensitive(u.env, s.pc.callee, s.pc.indirect, s.m, hid)
  {
    CallStep(u.p, u.env, s);
    hide Insensitive, HiddenCall;
  }

  /** A branch, its slot, and the callee if it is a call. */
  lemma BranchRunCorrect(x: Emitted, f: V.Frame, k: nat, m: State, hid: Hidden, n: nat)
    requires Ready(x) && CalleesAgree(x) && x.u.BranchesHaveSlots() && x.u.p.WellPlaced() && k < |x.u.p.insns| && x.u.p.insns[k].IsBranch()
    requires Landed(x, f, x.u.p.AddressOf(k), m, hid) && n > 0
    requires var s := Start(x.u.p.AddressOf(k), m);
             Run(x.u.p, x.u.env, s, n).Some? && Run(x.u.p, x.u.env, s, n).value.pc == At(x.u.p.link) &&
             HonestRun(x.u, s, hid, n)
    ensures var s := Start(x.u.p.AddressOf(k), m);
            Finishes(x, f, Run(x.u.p, x.u.env, s, n).value.m, HiddenRun(x.u, s, hid, n))
    decreases n, 0
  {
    hide *;
    var a, insn, s := x.u.p.AddressOf(k), x.u.p.insns[k], Start(x.u.p.AddressOf(k), m);
    BranchParts(x, k);
    AddressIndex(x.u.p, k);
    HonestAt(x.u, a, m, hid);
    BranchStep(x.u.p, x.u.env, a, m);
    RunNext(x.u, s, hid, n);
    var d, m1 := Destination(x.u.p, a, insn, m), Linked(a, insn, m);
    var s1 := Machine(At(x.u.p.AddressOf(k + 1)), d, m1);
    HonestSlot(x.u, k + 1, d, m1, hid);
    SlotStep(x.u.p, x.u.env, k + 1, d, m1);
    RunNext(x.u, s1, hid, n - 1);
    var m2, hid2 := Execute(x.u.p.insns[k + 1], m1).value, HiddenAfter(x.u.c, x.u.p.insns[k + 1], m1, hid);
    if Calls(x.u, insn) {
      var s2 := Step(x.u.p, x.u.env, s1).value;
      CallRunCorrect(x, f, k, m, hid, n - 2, m2, s2);
    } else {
      NoLink(x.u, a, insn, m);
      var g := BranchLands(x, f, k, m, hid, m2);
      RunCorrect(x, g, d.address, m2, hid2, n - 2);
      FinishesAfter(x, f, g, Run(x.u.p, x.u.env, s, n).value.m, HiddenRun(x.u, s, hid, n));
    }
  }

  lemma NoLink(u: Unit, a: Word, insn: Insn, m: State)
    requires !Calls(u, insn)
    ensures Linked(a, insn, m) == m
  {}

  lemma CallRunCorrect(x: Emitted, f: V.Frame, k: nat, m: State, hid: Hidden, n: nat, m2: State, s2: Machine)
    requires Ready(x) && CalleesAgree(x) && x.u.BranchesHaveSlots() && x.u.p.WellPlaced() && k + 1 < |x.u.p.insns|
    requires Calls(x.u, x.u.p.insns[k]) && x.u.p.insns[k].IsBranch() && !x.u.p.insns[k + 1].IsBranch()
    requires Landed(x, f, x.u.p.AddressOf(k), m, hid) && DecidesOnKnown(x.u.p.insns[k], hid)
    requires var m1 := Linked(x.u.p.AddressOf(k), x.u.p.insns[k], m);
             Allowed(x.u.c, x.u.p.insns[k + 1], m1, hid) && Execute(x.u.p.insns[k + 1], m1) == Some(m2)
    requires s2.pc == Destination(x.u.p, x.u.p.AddressOf(k), x.u.p.insns[k], m) && s2.m == m2
    requires Run(x.u.p, x.u.env, s2, n).Some? && Run(x.u.p, x.u.env, s2, n).value.pc == At(x.u.p.link)
    requires var hid2 := HiddenAfter(x.u.c, x.u.p.insns[k + 1], Linked(x.u.p.AddressOf(k), x.u.p.insns[k], m), hid);
             HonestRun(x.u, s2, hid2, n)
    ensures var hid2 := HiddenAfter(x.u.c, x.u.p.insns[k + 1], Linked(x.u.p.AddressOf(k), x.u.p.insns[k], m), hid);
            Finishes(x, f, Run(x.u.p, x.u.env, s2, n).value.m, HiddenRun(x.u, s2, hid2, n))
    decreases n, 2
  {
    hide *;
    var insn := x.u.p.insns[k];
    var hid2 := HiddenAfter(x.u.c, x.u.p.insns[k + 1], Linked(x.u.p.AddressOf(k), insn, m), hid);
    WrapsTwo(x, k);
    CallTarget(x.u.p, x.u.p.AddressOf(k), x.u, insn, m);
    RunNext(x.u, s2, hid2, n);
    if n > 0 {
      CallStep(x.u.p, x.u.env, s2);
      HonestCall(x.u, s2, hid2);
      ReadyPlaced(x);
      EffectIs(x.u.env, s2);
      var o := Effect(x.u.env, s2).value;
      var g := CallLands(x, f, k, m, hid, m2, s2.pc.callee, o);
      RunCorrect(x, g, s2.pc.back, AfterCall(o, m2), HiddenCall(o, x.u.env.Size(s2.pc.callee, s2.pc.indirect), hid2), n - 1);
      FinishesAfter(x, f, g, Run(x.u.p, x.u.env, s2, n).value.m, HiddenRun(x.u, s2, hid2, n));
    }
  }

  function Effect(env: Callees, s: Machine): Option<Outcome>
    requires s.pc.Call? && ArgumentRegisters(env.Passed(s.pc.callee, s.pc.indirect))
  {
    env.effect(s.pc.callee, s.pc.indirect, Arguments(env.Passed(s.pc.callee, s.pc.indirect), s.m), s.m.mem)
  }

  lemma EffectIs(env: Callees, s: Machine)
    requires s.pc.Call? && ArgumentRegisters(env.Passed(s.pc.callee, s.pc.indirect))
    ensures Effect(env, s) ==
            env.effect(s.pc.callee, s.pc.indirect, Arguments(env.Passed(s.pc.callee, s.pc.indirect), s.m), s.m.mem)
  {}

  lemma CallTarget(p: Method, a: Word, u: Unit, insn: Insn, m: State)
    requires Calls(u, insn) && p == u.p && insn.IsBranch()
    ensures Destination(p, a, insn, m) ==
            Call(CalleeOf(insn, m), insn.Jalr?, if insn.Jump? then p.link else Wrap(a + 8))
  {}
}
