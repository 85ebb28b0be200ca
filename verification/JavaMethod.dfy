/** tools/translator/javamethod.cc: which registers a method uses, which arguments its callers pass, and how
    its locals start out. */
module JavaMethod {
  import opened Words
  import opened Options
  import opened Mips
  import opened Translation
  import opened RegisterAllocator
  import opened MipsMethod
  import opened MethodCode
  import opened Emitter
  import opened StraightLine
  import opened Correctness
  import opened HiddenValues
  import opened MethodLayout
  import opened ControlFlow
  import J = Jvm
  import V = JvmMethod
  import BigEndian
  import MethodEmitter

  // ----- the argument list -----

  /** How many of the possible arguments are kept when the debug information knows the argument count. */
  function Kept(nArgs: Option<nat>): (t: nat)
    ensures 2 <= t <= |ARGUMENTS|
  {
    if nArgs == None || nArgs.value >= 4 then 6 else nArgs.value + 2
  }

  /** The entries up to the terminating `$zero`, from `it` on, that the method uses. */
  function Passed(usage: seq<int>, possible: seq<Register>, it: nat): seq<Register>
    requires |usage| == N_REGS && it < |possible| && possible[|possible| - 1] == R_ZERO
    decreases |possible| - it
  {
    if possible[it] == R_ZERO then []
    else (if usage[possible[it]] > 0 then [possible[it]] else []) + Passed(usage, possible, it + 1)
  }

  /** The array holds the first `t` arguments and a terminator. */
  ghost predicate IsTruncated(possible: seq<Register>, t: nat) {
    |possible| == |ARGUMENTS| + 1 && 2 <= t <= |ARGUMENTS| &&
    possible[..t] == ARGUMENTS[..t] && possible[t] == R_ZERO && possible[|ARGUMENTS|] == R_ZERO
  }

  /** Which registers a list of arguments holds, for a method whose argument count may be known: the stack pointer
      and the function number always, and of the four argument registers as many as there are arguments. */
  predicate HoldsArguments(possible: seq<Register>, nArgs: Option<nat>) {
    R_SP in possible && R_FNA in possible &&
    (R_A0 in possible <==> nArgs == None || nArgs.value > 0) &&
    (R_A1 in possible <==> nArgs == None || nArgs.value > 1) &&
    (R_A2 in possible <==> nArgs == None || nArgs.value > 2) &&
    (R_A3 in possible <==> nArgs == None || nArgs.value > 3)
  }

  /** The registers that callers pass are those of them that the method uses, in this order. */
  predicate PassesArguments(usage: seq<int>, nArgs: Option<nat>, passed: seq<Register>)
    requires |usage| == N_REGS
  {
    passed == Used(usage, R_SP, true) + Used(usage, R_FNA, true)
              + Used(usage, R_A0, nArgs == None || nArgs.value > 0) + Used(usage, R_A1, nArgs == None || nArgs.value > 1)
              + Used(usage, R_A2, nArgs == None || nArgs.value > 2) + Used(usage, R_A3, nArgs == None || nArgs.value > 3)
  }

  function Used(usage: seq<int>, r: Register, wanted: bool): seq<Register>
    requires |usage| == N_REGS
  {
    if wanted && usage[r] > 0 then [r] else []
  }

  /** An argument register is passed exactly when the method uses it and its argument exists, as far as the number
      of arguments is known. */
  lemma PassesUsed(usage: seq<int>, nArgs: Option<nat>, passed: seq<Register>, i: nat)
    requires |usage| == N_REGS && PassesArguments(usage, nArgs, passed) && i < 4
    ensures R_A0 + i in passed <==> usage[R_A0 + i] > 0 && (nArgs == None || i < nArgs.value)
  {}

  /** Every list cut for the number of arguments passes them. */
  lemma CutPasses(usage: seq<int>, possible: seq<Register>, nArgs: Option<nat>)
    requires |usage| == N_REGS && IsTruncated(possible, Kept(nArgs))
    ensures PassesArguments(usage, nArgs, Passed(usage, possible, 0))
  {
    var t := Kept(nArgs);
    UsedIs(usage, nArgs);
    PassedIsUsed(usage, possible, t, 0);
    hide *;
    assert UsedArguments(usage, 0) + Passed(usage, possible, 0) == Passed(usage, possible, 0) by { UsedNone(usage); }
  }

  lemma UsedNone(usage: seq<int>)
    requires |usage| == N_REGS
    ensures UsedArguments(usage, 0) == []
  {}

  lemma UsedIs(usage: seq<int>, nArgs: Option<nat>)
    requires |usage| == N_REGS
    ensures PassesArguments(usage, nArgs, UsedArguments(usage, Kept(nArgs)))
  {
    var t := Kept(nArgs);
    UsedTwo(usage);
    UsedStep(usage, 6);
    UsedStep(usage, 5);
    UsedStep(usage, 4);
    UsedStep(usage, 3);
    NotUsed(usage, R_A0);
    NotUsed(usage, R_A1);
    NotUsed(usage, R_A2);
    NotUsed(usage, R_A3);
    hide UsedArguments, Used;
    NoMore(UsedArguments(usage, t));
  }

  lemma UsedTwo(usage: seq<int>)
    requires |usage| == N_REGS
    ensures UsedArguments(usage, 2) == Used(usage, R_SP, true) + Used(usage, R_FNA, true)
  {
    UsedNone(usage);
    UsedStep(usage, 1);
    UsedStep(usage, 2);
    hide UsedArguments, Used;
    assert [] + Used(usage, R_SP, true) == Used(usage, R_SP, true);
  }

  lemma NotUsed(usage: seq<int>, r: Register)
    requires |usage| == N_REGS
    ensures Used(usage, r, false) == []
  {}

  lemma NoMore(s: seq<Register>)
    ensures s + [] == s
  {}

  lemma UsedStep(usage: seq<int>, k: nat)
    requires |usage| == N_REGS && 0 < k <= |ARGUMENTS|
    ensures UsedArguments(usage, k) == UsedArguments(usage, k - 1) + Used(usage, ARGUMENTS[k - 1], true)
  {}

  lemma WholeList(possible: seq<Register>)
    requires IsTruncated(possible, 6)
    ensures possible == [R_SP, R_FNA, R_A0, R_A1, R_A2, R_A3, R_ZERO]
  {
    assert possible == possible[..6] + [possible[6]];
  }

  lemma Holds(possible: seq<Register>, nArgs: Option<nat>)
    requires |possible| == 7 && possible[0] == R_SP && possible[1] == R_FNA && possible[6] == R_ZERO
    requires possible[2] == if nArgs == None || nArgs.value > 0 then R_A0 else R_ZERO
    requires possible[3] == if nArgs == None || nArgs.value > 1 then R_A1 else R_ZERO
    requires possible[4] == if nArgs == None || nArgs.value > 2 then R_A2 else R_ZERO
    requires possible[5] == if nArgs == None || nArgs.value > 3 then R_A3 else R_ZERO
    ensures HoldsArguments(possible, nArgs)
  {}

  class Method {
    const registerUsage: array<int>
    const possibleArguments: array<Register>
    var nRegistersToPass: nat
    var returnSize: nat

    ghost predicate Valid()
      reads this, registerUsage, possibleArguments
    {
      registerUsage.Length == N_REGS && possibleArguments.Length == |ARGUMENTS| + 1 &&
      possibleArguments[|ARGUMENTS|] == R_ZERO && registerUsage as object != possibleArguments
    }

    constructor ()
      ensures Valid() && fresh(registerUsage) && fresh(possibleArguments)
      ensures IsTruncated(possibleArguments[..], 6) && registerUsage[..] == seq(N_REGS, _ => 0)
    {
      registerUsage := new int[N_REGS](_ => 0);
      possibleArguments := new Register[|ARGUMENTS| + 1](i requires 0 <= i =>
        if i < |ARGUMENTS| then ARGUMENTS[i] else R_ZERO);
      nRegistersToPass := 0;
      returnSize := 0;
      new;
      assert possibleArguments[..6] == ARGUMENTS[..6];
    }

    /** The truncation of `pass1`. */
    method Truncate(nArgs: Option<nat>)
      requires Valid() && IsTruncated(possibleArguments[..], 6)
      modifies possibleArguments
      ensures Valid() && IsTruncated(possibleArguments[..], Kept(nArgs)) && HoldsArguments(possibleArguments[..], nArgs)
    {
      WholeList(possibleArguments[..]);
      if nArgs.Some? {
        if nArgs.value <= 3 { possibleArguments[5] := R_ZERO; }
        if nArgs.value <= 2 { possibleArguments[4] := R_ZERO; }
        if nArgs.value <= 1 { possibleArguments[3] := R_ZERO; }
        if nArgs.value == 0 { possibleArguments[2] := R_ZERO; }
      }
      var t := Kept(nArgs);
      assert possibleArguments[..][..t] == ARGUMENTS[..t];
      Holds(possibleArguments[..], nArgs);
    }

    /** `getNextRegisterToPass`: the next used argument, `$zero` at the end. */
    method GetNextRegisterToPass(it: nat) returns (reg: Register, it': nat)
      requires Valid() && it < possibleArguments.Length
      ensures it < it' <= possibleArguments.Length
      ensures var rest := Passed(registerUsage[..], possibleArguments[..], it);
              if reg == R_ZERO then rest == []
              else it' < possibleArguments.Length && rest == [reg] + Passed(registerUsage[..], possibleArguments[..], it')
    {
      it' := it;
      while possibleArguments[it'] != R_ZERO && registerUsage[possibleArguments[it']] <= 0
        invariant it <= it' < possibleArguments.Length
        invariant Passed(registerUsage[..], possibleArguments[..], it) == Passed(registerUsage[..], possibleArguments[..], it')
        decreases possibleArguments.Length - it'
      {
        it' := it' + 1;
      }
      reg := possibleArguments[it'];
      it' := it' + 1;
    }

    /** The registers a caller pushes, in order, and the length of the descriptor. */
    method RegistersToPass() returns (regs: seq<Register>)
      requires Valid()
      modifies this`nRegistersToPass
      ensures Valid() && regs == Passed(registerUsage[..], possibleArguments[..], 0) && nRegistersToPass == |regs|
    {
      hide Passed;
      nRegistersToPass := 0;
      regs := [];
      ghost var all := Passed(registerUsage[..], possibleArguments[..], 0);
      ghost var rest := all;
      var reg, it := GetNextRegisterToPass(0);
      while reg != R_ZERO
        invariant it <= possibleArguments.Length && Valid() && all == regs + rest && nRegistersToPass == |regs|
        invariant if reg == R_ZERO then rest == []
                  else it < possibleArguments.Length && rest == [reg] + Passed(registerUsage[..], possibleArguments[..], it)
        decreases possibleArguments.Length - it
      {
        nRegistersToPass := nRegistersToPass + 1;
        regs := regs + [reg];
        rest := Passed(registerUsage[..], possibleArguments[..], it);
        reg, it := GetNextRegisterToPass(it);
      }
    }

    /** `registerIsArgument`. */
    method RegisterIsArgument(reg: Register, ghost t: nat) returns (yes: bool)
      requires Valid() && IsTruncated(possibleArguments[..], t)
      ensures yes == (reg in ARGUMENTS[..t])
    {
      ghost var args := ARGUMENTS[..t];
      forall k | 0 <= k < t ensures possibleArguments[k] == args[k] != R_ZERO {
        assert possibleArguments[..][..t][k] == ARGUMENTS[k];
      }
      var i := 0;
      while possibleArguments[i] != R_ZERO
        invariant 0 <= i <= t && reg !in args[..i]
        decreases t - i
      {
        if possibleArguments[i] == reg {
          assert args[i] == reg;
          return true;
        }
        assert args[..i + 1] == args[..i] + [args[i]];
        i := i + 1;
      }
      assert i == t && args[..i] == args;
      return false;
    }

    /** The size of the result: from the registers the method uses, unless the debug information knows it. */
    method SetReturnSize(known: Option<nat>)
      requires Valid()
      modifies this`returnSize
      ensures Valid() && returnSize <= 2
      ensures known.Some? && known.value <= 2 ==> returnSize == known.value
      ensures !(known.Some? && known.value <= 2) ==>
                (returnSize >= 1 <==> registerUsage[R_V0] > 0) &&
                (returnSize == 2 <==> registerUsage[R_V0] > 0 && registerUsage[R_V1] > 0)
    {
      returnSize := 0;
      if registerUsage[R_V0] > 0 && registerUsage[R_V1] > 0 {
        returnSize := 2;
      } else if registerUsage[R_V0] > 0 {
        returnSize := 1;
      }
      if known.Some? && known.value <= 2 {
        returnSize := known.value;
      }
    }

    /** The counters of a method count exactly the registers its emitted instructions need. */
    method CountUsage(u: Unit)
      requires Valid() && registerUsage[..] == seq(N_REGS, _ => 0)
      modifies registerUsage
      ensures Valid() && CountsAll(u, registerUsage[..], |u.p.insns|)
    {
      hide Touched, IsEmitted;
      for k := 0 to |u.p.insns|
        invariant Valid() && CountsAll(u, registerUsage[..], k)
      {
        ghost var before := registerUsage[..];
        if IsEmitted(u, k) {
          var insn := Compiled(u.p, u.p.insns[k]);
          FillUsage(u.c, insn, registerUsage);
          forall r: Register
            ensures registerUsage[..][r] >= before[r] && (registerUsage[..][r] > before[r] <==> r in Touched(u.c, insn))
          {}
        }
        CountsNext(u, before, registerUsage[..], k);
      }
    }

    /** The registers that are initialised before the body: those in use that are no arguments. */
    method InitRegisters(c: Context, emit: Emit, ghost t: nat)
      requires Valid() && IsTruncated(possibleArguments[..], t)
      modifies emit`output
      ensures emit.output == old(emit.output) + InitCode(c, registerUsage[..], t, N_REGS)
    {
      hide InitOne;
      assert t <= |ARGUMENTS|;
      hide IsTruncated;
      for r := 0 to N_REGS
        invariant emit.output == old(emit.output) + InitCode(c, registerUsage[..], t, r)
      {
        InitSplit(c, registerUsage[..], t, r + 1);
        InitRegister(c, emit, r, t);
      }
    }

    method InitRegister(c: Context, emit: Emit, reg: Register, ghost t: nat)
      requires Valid() && IsTruncated(possibleArguments[..], t)
      modifies emit`output
      ensures emit.output == old(emit.output) + InitOne(c, registerUsage[..], t, reg)
    {
      hide InitOne, Translation.PopRegister, Translation.PushConst;
      InitOneIs(c, registerUsage[..], t, reg);
      var isArgument := RegisterIsArgument(reg, t);
      if isArgument || registerUsage[reg] <= 0 {
        return;
      }
      if reg == R_MEM {
        emit.Insn(J.GetMemory);
      } else {
        emit.PushConst(0);
      }
      emit.PopRegister(c, reg);
    }

    /** `opcodeIsUsed(OP_MFHI)`, for the instructions that are emitted. */
    method UsesHi(u: Unit) returns (yes: bool)
      ensures yes <==> exists k: nat :: k < |u.p.insns| && ReadsHi(u, k)
    {
      for k := 0 to |u.p.insns|
        invariant forall i: nat :: i < k ==> !ReadsHi(u, i)
      {
        if ReadsHi(u, k) {
          return true;
        }
      }
      return false;
    }

    /** `pass1` and `pass2`: count, allocate, initialise, and translate. */
    method Compile(p: MipsMethod.Method, env: Callees, inlines: bool, nArgs: Option<nat>, known: Option<nat>)
      returns (u: Unit, output: seq<J.Bytecode>, ghost order: seq<Register>)
      requires Valid() && IsTruncated(possibleArguments[..], 6) && registerUsage[..] == seq(N_REGS, _ => 0)
      requires p.WellPlaced() && Unit(Context(seq(N_REGS, _ => -1), false, inlines), p, env, 0).BranchesHaveSlots()
      modifies this`returnSize, registerUsage, possibleArguments
      ensures Valid() && IsTruncated(possibleArguments[..], Kept(nArgs)) && HoldsArguments(possibleArguments[..], nArgs)
      ensures PassesArguments(registerUsage[..], nArgs, Passed(registerUsage[..], possibleArguments[..], 0))
      ensures u.p == p && u.env == env && u.c.inlines == inlines && u.BranchesHaveSlots()
      ensures u.c.usingHi <==> exists k: nat :: k < |p.insns| && ReadsHi(u, k)
      ensures CountsAll(u, registerUsage[..], |p.insns|) && IsAllocationOrder(registerUsage[..], order) && IsMapping(order, u.c.ra)
      ensures SizeIs(u.size, registerUsage[..], known)
      ensures output == WholeMethod(u, InitCode(u.c, registerUsage[..], Kept(nArgs), N_REGS))
    {
      hide IsAllocationOrder, IsMapping, CountsAll, InitCode, WholeMethod, IsTruncated, ReadsHi, Passed, PassesArguments, HoldsArguments;
      var u0 := Unit(Context(seq(N_REGS, _ => -1), false, inlines), p, env, 0);
      var usingHi := UsesHi(u0);
      var u1 := u0.(c := u0.c.(usingHi := usingHi));
      CountUsage(u1);
      Truncate(nArgs);
      CutPasses(registerUsage[..], possibleArguments[..], nArgs);
      SetReturnSize(known);
      var allocator := new Allocator();
      order := allocator.SetAllocation(registerUsage);
      u := u1.(c := u1.c.(ra := allocator.mipsToLocal[..]), size := returnSize);
      SameHi(u0, u);
      SameCounts(u1, u, registerUsage[..]);
      var emit := new Emit();
      InitRegisters(u.c, emit, Kept(nArgs));
      assert [] + InitCode(u.c, registerUsage[..], Kept(nArgs), N_REGS) == InitCode(u.c, registerUsage[..], Kept(nArgs), N_REGS);
      output := MethodEmitter.Translate(u, emit.output);
    }
  }

  /** The size of the result, from the counters unless it is known. */
  predicate SizeIs(size: nat, usage: seq<int>, known: Option<nat>)
    requires |usage| == N_REGS
  {
    if known.Some? && known.value <= 2 then size == known.value
    else size <= 2 && (size >= 1 <==> usage[R_V0] > 0) && (size == 2 <==> usage[R_V0] > 0 && usage[R_V1] > 0)
  }

  predicate ReadsHi(u: Unit, k: nat)
    requires k < |u.p.insns|
  {
    IsEmitted(u, k) && u.p.insns[k].Mfhi?
  }

  lemma SameHi(u: Unit, v: Unit)
    requires u.p == v.p
    ensures forall k: nat :: k < |u.p.insns| ==> ReadsHi(u, k) == ReadsHi(v, k)
  {}

  /** What is counted does not depend on the allocation. */
  lemma SameCounts(u: Unit, v: Unit, usage: seq<int>)
    requires u.p == v.p && u.c == v.c.(ra := u.c.ra) && CountsAll(u, usage, |u.p.insns|)
    ensures CountsAll(v, usage, |v.p.insns|)
  {
    forall k: nat, r: Register | k < |u.p.insns| ensures UsesAt(u, k, r) <==> UsesAt(v, k, r) {
      SameTouched(u.c, v.c, Compiled(u.p, u.p.insns[k]));
    }
    hide UsesAt;
  }

  lemma SameTouched(c: Context, d: Context, insn: Insn)
    requires c.usingHi == d.usingHi
    ensures Touched(c, insn) == Touched(d, insn)
  {}

  ghost predicate CountsAll(u: Unit, usage: seq<int>, n: nat)
    requires n <= |u.p.insns|
  {
    |usage| == N_REGS &&
    forall r: Register :: usage[r] >= 0 && (usage[r] > 0 <==> exists k: nat :: k < n && UsesAt(u, k, r))
  }

  ghost predicate UsesAt(u: Unit, k: nat, r: Register)
    requires k < |u.p.insns|
  {
    IsEmitted(u, k) && r in Touched(u.c, Compiled(u.p, u.p.insns[k]))
  }

  lemma CountsNext(u: Unit, before: seq<int>, after: seq<int>, n: nat)
    requires n < |u.p.insns| && CountsAll(u, before, n) && |after| == N_REGS
    requires forall r: Register :: after[r] >= before[r] && (after[r] > before[r] <==> UsesAt(u, n, r))
    ensures CountsAll(u, after, n + 1)
  {
    hide UsesAt;
    forall r: Register ensures after[r] > 0 <==> exists k: nat :: k < n + 1 && UsesAt(u, k, r) {
      if before[r] > 0 {
        var k: nat :| k < n && UsesAt(u, k, r);
        assert k < n + 1 && UsesAt(u, k, r);
      }
      if UsesAt(u, n, r) {
        assert n < n + 1 && UsesAt(u, n, r);
      }
    }
  }

  // ----- from usage to a valid context -----

  /** Counting, allocating and translating fit together: the allocation of the counted registers is a valid
      context in which every instruction of the method is covered. */
  lemma UsageCovers(u: Unit, usage: seq<int>, order: seq<Register>)
    requires CountsAll(u, usage, |u.p.insns|) && IsAllocationOrder(usage, order) && IsMapping(order, u.c.ra)
    ensures ValidContext(u.c)
    ensures forall k: nat :: k < |u.p.insns| && IsEmitted(u, k) ==> Covers(u.c, Compiled(u.p, u.p.insns[k]))
  {
    AllocationIsInjective(usage, order, u.c.ra);
    hide IsAllocationOrder, IsMapping, Touched, IsEmitted;
    forall k: nat | k < |u.p.insns| && IsEmitted(u, k) ensures Covers(u.c, Compiled(u.p, u.p.insns[k])) {
      forall r | r in Touched(u.c, Compiled(u.p, u.p.insns[k])) ensures u.c.Allocated(r) {
        assert UsesAt(u, k, r);
      }
    }
    ZeroUncounted(u);
  }

  lemma ZeroUncounted(u: Unit)
    ensures forall k: nat :: k < |u.p.insns| ==> !UsesAt(u, k, R_ZERO)
  {}

  // ----- the calling convention -----

  lemma {:induction false} PassedIsUsed(usage: seq<int>, possible: seq<Register>, t: nat, k: nat)
    requires |usage| == N_REGS && IsTruncated(possible, t) && k <= t
    ensures UsedArguments(usage, t) == UsedArguments(usage, k) + Passed(usage, possible, k)
    decreases t - k
  {
    if k < t {
      assert possible[..t][k] == ARGUMENTS[k];
      PassedIsUsed(usage, possible, t, k + 1);
    }
  }

  lemma {:induction false} UsedGrows(usage: seq<int>, k: nat, n: nat)
    requires |usage| == N_REGS && k <= n <= |ARGUMENTS|
    ensures UsedArguments(usage, k) <= UsedArguments(usage, n)
    decreases n - k
  {
    if k < n {
      UsedGrows(usage, k, n - 1);
    }
  }

  lemma {:induction false} UsedMember(usage: seq<int>, t: nat, r: Register)
    requires |usage| == N_REGS && t <= |ARGUMENTS|
    ensures r in UsedArguments(usage, t) <==> r in ARGUMENTS[..t] && usage[r] > 0
  {
    if t > 0 {
      UsedMember(usage, t - 1, r);
      assert ARGUMENTS[..t] == ARGUMENTS[..t - 1] + [ARGUMENTS[t - 1]];
    }
  }

  /** The i-th value a caller pushes lands in the local of the register it came from. */
  lemma ArgumentsLand(usage: seq<int>, order: seq<Register>, map_: seq<int>, possible: seq<Register>, t: nat)
    requires |usage| == N_REGS && IsAllocationOrder(usage, order) && IsMapping(order, map_) && IsTruncated(possible, t)
    ensures var passed := Passed(usage, possible, 0);
            |passed| <= |order| &&
            (forall i :: 0 <= i < |passed| ==> map_[passed[i]] == i) &&
            (forall r: Register :: r in passed <==> r in ARGUMENTS[..t] && usage[r] > 0)
  {
    PassedIsUsed(usage, possible, t, 0);
    UsedGrows(usage, t, |ARGUMENTS|);
    var passed := Passed(usage, possible, 0);
    assert passed == UsedArguments(usage, t);
    forall r: Register ensures r in passed <==> r in ARGUMENTS[..t] && usage[r] > 0 {
      UsedMember(usage, t, r);
    }
    hide UsedArguments, Passed;
    assert passed <= order;
  }

  // ----- the initial locals -----

  /** What `pass2` emits for a register before the body. */
  function InitOne(c: Context, usage: seq<int>, t: nat, r: Register): seq<J.Bytecode>
    requires |usage| == N_REGS && t <= |ARGUMENTS|
  {
    if r in ARGUMENTS[..t] || usage[r] <= 0 then []
    else [if r == R_MEM then J.GetMemory else PushConst(0)] + PopRegister(c, r)
  }

  lemma InitOneIs(c: Context, usage: seq<int>, t: nat, r: Register)
    requires |usage| == N_REGS && t <= |ARGUMENTS|
    ensures InitOne(c, usage, t, r) ==
            if r in ARGUMENTS[..t] || usage[r] <= 0 then []
            else [if r == R_MEM then J.GetMemory else PushConst(0)] + PopRegister(c, r)
  {}

  function InitCode(c: Context, usage: seq<int>, t: nat, k: nat): seq<J.Bytecode>
    requires |usage| == N_REGS && t <= |ARGUMENTS| && k <= N_REGS
  {
    if k == 0 then [] else InitCode(c, usage, t, k - 1) + InitOne(c, usage, t, k - 1)
  }

  lemma {:induction false} InitHasNoLabels(c: Context, usage: seq<int>, t: nat, k: nat)
    requires |usage| == N_REGS && t <= |ARGUMENTS| && k <= N_REGS
    ensures NoLabels(InitCode(c, usage, t, k))
  {
    if k > 0 {
      InitHasNoLabels(c, usage, t, k - 1);
      PushesAreNoLabels(c, k - 1);
      ConstsAreNoLabels(0);
      hide PushConst, PopRegister;
    }
  }

  function InitValue(r: Register): J.Value {
    if r == R_MEM then J.MemoryRef else J.Int(0)
  }

  /** The locals after the initialisation of the registers below `k`: the others are as they were. */
  ghost predicate Initialised(c: Context, usage: seq<int>, t: nat, k: nat, before: seq<J.Value>, locals: seq<J.Value>)
    requires |usage| == N_REGS && t <= |ARGUMENTS|
  {
    |locals| == |before| && (forall r: Register :: c.Allocated(r) ==> c.ra[r] < |locals|) &&
    forall r: Register :: c.Allocated(r) ==>
      locals[c.ra[r]] == if r < k && r !in ARGUMENTS[..t] then InitValue(r) else before[c.ra[r]]
  }

  lemma NothingToInit(c: Context, usage: seq<int>, t: nat, r: Register, before: seq<J.Value>, locals: seq<J.Value>)
    requires |usage| == N_REGS && t <= |ARGUMENTS| && (usage[r] > 0 <==> c.Allocated(r))
    requires Initialised(c, usage, t, r, before, locals) && (r in ARGUMENTS[..t] || usage[r] <= 0)
    ensures Initialised(c, usage, t, r + 1, before, locals)
  {}

  lemma LocalInitialised(c: Context, usage: seq<int>, t: nat, r: Register, before: seq<J.Value>, locals: seq<J.Value>)
    requires |usage| == N_REGS && t <= |ARGUMENTS| && ValidContext(c) && c.Allocated(r)
    requires Initialised(c, usage, t, r, before, locals) && r !in ARGUMENTS[..t]
    ensures c.ra[r] < |locals| && Initialised(c, usage, t, r + 1, before, locals[c.ra[r] := InitValue(r)])
  {}

  lemma TwoStand(code: seq<J.Bytecode>, at: nat, a: J.Bytecode, b: J.Bytecode)
    requires V.Stands(code, at, [a] + [b])
    ensures at + 1 < |code| && code[at] == a && code[at + 1] == b
  {
    assert code[at..at + 2][0] == a && code[at..at + 2][1] == b;
  }

  lemma PushStarts(code: seq<J.Bytecode>, env: V.JavaCallees, at: nat, r: Register, st: J.State, v1: Word)
    requires at < |code| && code[at] == if r == R_MEM then J.GetMemory else PushConst(0)
    ensures V.Reaches(code, env, V.Running(at, st, v1), V.Running(at + 1, st.Push(InitValue(r)), v1))
  {
    V.ReachesStep(code, env, V.Running(at, st, v1), V.Running(at + 1, st.Push(InitValue(r)), v1));
  }

  lemma PopStarts(code: seq<J.Bytecode>, env: V.JavaCallees, at: nat, c: Context, r: Register, st: J.State, v1: Word)
    requires at < |code| && c.Allocated(r) && c.ra[r] < |st.locals| && [code[at]] == PopRegister(c, r)
    ensures V.Reaches(code, env, V.Running(at, st.Push(InitValue(r)), v1),
                      V.Running(at + 1, st.(locals := st.locals[c.ra[r] := InitValue(r)]), v1))
  {
    assert code[at] == if r == R_MEM then J.Astore(c.ra[r]) else J.Istore(c.ra[r]);
    V.ReachesStep(code, env, V.Running(at, st.Push(InitValue(r)), v1),
                  V.Running(at + 1, st.(locals := st.locals[c.ra[r] := InitValue(r)]), v1));
  }

  /** Every used register that is not passed is initialised, and the passed ones keep their arguments. */
  ghost predicate UsedAreAllocated(c: Context, usage: seq<int>)
    requires |usage| == N_REGS
  {
    forall r: Register :: usage[r] > 0 <==> c.Allocated(r)
  }

  ghost predicate LocalsFit(c: Context, locals: seq<J.Value>) {
    forall r: Register :: c.Allocated(r) ==> c.ra[r] < |locals|
  }

  /** The frame after the initialisation of one register, and of the registers below `k`. */
  function AfterOne(c: Context, usage: seq<int>, t: nat, r: Register, st: J.State): J.State
    requires |usage| == N_REGS && t <= |ARGUMENTS|
  {
    if r in ARGUMENTS[..t] || usage[r] <= 0 || c.ra[r] < 0 || c.ra[r] >= |st.locals| then st
    else st.(locals := st.locals[c.ra[r] := InitValue(r)])
  }

  function AfterInit(c: Context, usage: seq<int>, t: nat, k: nat, st: J.State): J.State
    requires |usage| == N_REGS && t <= |ARGUMENTS| && k <= N_REGS
  {
    if k == 0 then st else AfterOne(c, usage, t, k - 1, AfterInit(c, usage, t, k - 1, st))
  }

  lemma InitOneReaches(code: seq<J.Bytecode>, env: V.JavaCallees, at: nat, c: Context, usage: seq<int>, t: nat, r: Register, st: J.State, v1: Word)
    requires |usage| == N_REGS && t <= |ARGUMENTS| && (usage[r] > 0 ==> c.Allocated(r) && c.ra[r] < |st.locals|)
    requires V.Stands(code, at, InitOne(c, usage, t, r))
    ensures V.Reaches(code, env, V.Running(at, st, v1),
                      V.Running(at + |InitOne(c, usage, t, r)|, AfterOne(c, usage, t, r, st), v1))
  {
    hide V.Reaches, V.Stands;
    if r in ARGUMENTS[..t] || usage[r] <= 0 {
      V.ReachesSelf(code, env, V.Running(at, st, v1));
    } else {
      var push := if r == R_MEM then J.GetMemory else PushConst(0);
      var end := st.(locals := st.locals[c.ra[r] := InitValue(r)]);
      TwoStand(code, at, push, PopRegister(c, r)[0]);
      PushStarts(code, env, at, r, st, v1);
      PopStarts(code, env, at + 1, c, r, st, v1);
      hide *;
      V.ReachesThen(code, env, V.Running(at, st, v1), V.Running(at + 1, st.Push(InitValue(r)), v1), V.Running(at + 2, end, v1));
    }
  }

  lemma {:induction false} InitReaches(code: seq<J.Bytecode>, env: V.JavaCallees, c: Context, usage: seq<int>, t: nat, k: nat, st: J.State, v1: Word)
    requires |usage| == N_REGS && t <= |ARGUMENTS| && k <= N_REGS
    requires UsedAreAllocated(c, usage) && LocalsFit(c, st.locals) && V.Stands(code, 0, InitCode(c, usage, t, k))
    ensures V.Reaches(code, env, V.Running(0, st, v1), V.Running(|InitCode(c, usage, t, k)|, AfterInit(c, usage, t, k, st), v1))
    decreases k
  {
    hide V.Stands, V.Reaches, UsedAreAllocated, LocalsFit, InitOne, AfterOne;
    if k == 0 {
      V.ReachesSelf(code, env, V.Running(0, st, v1));
    } else {
      var front, one := InitCode(c, usage, t, k - 1), InitOne(c, usage, t, k - 1);
      var mid, end := AfterInit(c, usage, t, k - 1, st), AfterInit(c, usage, t, k, st);
      FitsThen(c, usage, t, k - 1, st);
      hide InitCode, AfterInit;
      InitSplit(c, usage, t, k);
      StandsBoth(code, 0, front, one);
      InitReaches(code, env, c, usage, t, k - 1, st, v1);
      InitOneReaches(code, env, |front|, c, usage, t, k - 1, mid, v1);
      V.ReachesThen(code, env, V.Running(0, st, v1), V.Running(|front|, mid, v1), V.Running(|front| + |one|, end, v1));
    }
  }

  lemma {:induction false} AfterInitLocals(c: Context, usage: seq<int>, t: nat, k: nat, st: J.State)
    requires |usage| == N_REGS && t <= |ARGUMENTS| && k <= N_REGS && ValidContext(c)
    requires UsedAreAllocated(c, usage) && LocalsFit(c, st.locals)
    ensures Initialised(c, usage, t, k, st.locals, AfterInit(c, usage, t, k, st).locals)
    ensures AfterInit(c, usage, t, k, st).stack == st.stack && AfterInit(c, usage, t, k, st).memory == st.memory
    decreases k
  {
    if k > 0 {
      var r: Register, mid := k - 1, AfterInit(c, usage, t, k - 1, st);
      hide AfterInit, Initialised, ValidContext, UsedAreAllocated, LocalsFit;
      AfterInitLocals(c, usage, t, k - 1, st);
      UsedIsAllocated(c, usage, r);
      if r in ARGUMENTS[..t] || usage[r] <= 0 {
        NothingToInit(c, usage, t, r, st.locals, mid.locals);
      } else {
        LocalInitialised(c, usage, t, r, st.locals, mid.locals);
      }
      AfterNext(c, usage, t, k, st);
    } else {
      hide ValidContext;
    }
  }

  lemma AfterNext(c: Context, usage: seq<int>, t: nat, k: nat, st: J.State)
    requires |usage| == N_REGS && t <= |ARGUMENTS| && 0 < k <= N_REGS
    ensures AfterInit(c, usage, t, k, st) == AfterOne(c, usage, t, k - 1, AfterInit(c, usage, t, k - 1, st))
  {
    hide AfterOne;
  }

  /** The next register's local exists. */
  lemma {:induction false} FitsThen(c: Context, usage: seq<int>, t: nat, r: Register, st: J.State)
    requires |usage| == N_REGS && t <= |ARGUMENTS| && UsedAreAllocated(c, usage) && LocalsFit(c, st.locals)
    ensures usage[r] > 0 ==> c.Allocated(r) && c.ra[r] < |AfterInit(c, usage, t, r, st).locals|
  {
    SameLength(c, usage, t, r, st);
    hide AfterInit;
  }

  lemma {:induction false} SameLength(c: Context, usage: seq<int>, t: nat, k: nat, st: J.State)
    requires |usage| == N_REGS && t <= |ARGUMENTS| && k <= N_REGS
    ensures |AfterInit(c, usage, t, k, st).locals| == |st.locals|
    decreases k
  {
    if k > 0 {
      SameLength(c, usage, t, k - 1, st);
    }
  }

  lemma UsedIsAllocated(c: Context, usage: seq<int>, r: Register)
    requires |usage| == N_REGS && UsedAreAllocated(c, usage)
    ensures usage[r] > 0 <==> c.Allocated(r)
  {}

  lemma InitSplit(c: Context, usage: seq<int>, t: nat, k: nat)
    requires |usage| == N_REGS && t <= |ARGUMENTS| && 0 < k <= N_REGS
    ensures InitCode(c, usage, t, k) == InitCode(c, usage, t, k - 1) + InitOne(c, usage, t, k - 1)
  {
    hide InitOne;
  }

  // ----- entering a method -----

  /** The MIPS registers a method starts with, apart from the hidden ones: the passed ones, and zero in the others
      it uses. */
  ghost predicate StartsWith(c: Context, passed: seq<Register>, args: seq<Word>, m: State, hid: Hidden) {
    |args| == |passed| &&
    (forall i :: 0 <= i < |passed| ==> passed[i] < 34 && (Known(hid, passed[i]) ==> m.regs[passed[i]] == args[i])) &&
    forall r: Register :: Visible(c, r) && r !in passed && Known(hid, r) ==> m.regs[r] == 0
  }

  /** Whatever the registers hold that are not passed, they may be taken as hidden. */
  lemma AnyStart(c: Context, passed: seq<Register>, args: seq<Word>, m: State)
    requires |args| == |passed| && forall i :: 0 <= i < |passed| ==> passed[i] < 34 && m.regs[passed[i]] == args[i]
    ensures StartsWith(c, passed, args, m, Hidden({}, NotPassed(passed)))
  {}

  function NotPassed(passed: seq<Register>): set<nat> {
    set r: nat | r < 34 && r !in passed
  }

  /** A frame as the call leaves it: the arguments in the first locals. */
  ghost predicate FrameOf(st: J.State, args: seq<Word>, nLocals: nat) {
    st.stack == J.Empty && |st.locals| == nLocals >= |args| && forall i :: 0 <= i < |args| ==> st.locals[i] == J.Int(args[i])
  }

  /** From the call to the first instruction: with the arguments that a caller pushes in the first locals and
      anything in the others, the emitted initialisation relates the frame to the MIPS state. */
  lemma EntryCorrect(u: Unit, env: V.JavaCallees, usage: seq<int>, order: seq<Register>, possible: seq<Register>, t: nat,
                     args: seq<Word>, st: J.State, v1: Word, m: State, hid: Hidden) returns (end: J.State)
    requires u.BranchesHaveSlots() && |usage| == N_REGS && IsAllocationOrder(usage, order) && IsMapping(order, u.c.ra)
    requires usage[R_ZERO] <= 0 && IsTruncated(possible, t)
    requires FrameOf(st, args, |order|) && StartsWith(u.c, Passed(usage, possible, 0), args, m, hid)
    requires BigEndian.Holds(st.memory, m.mem, hid.words)
    ensures var prefix := InitCode(u.c, usage, t, N_REGS);
            V.Reaches(WholeMethod(u, prefix), env, V.Running(0, st, v1), V.Running(Offset(u, prefix, 0), end, v1))
    ensures end.stack == J.Empty && Seen(u.c, hid, m, end)
  {
    var prefix := InitCode(u.c, usage, t, N_REGS);
    AllocationIsInjective(usage, order, u.c.ra);
    ArgumentsLand(usage, order, u.c.ra, possible, t);
    WholeIs(u, prefix);
    OffsetIs(u, prefix, 0);
    assert prefix + Body(u, 0) == prefix;
    assert ValidContext(u.c);
    hide AfterInit, IsAllocationOrder, IsMapping, InitCode, WholeMethod, Passed, Body, Offset, Unit.BranchesHaveSlots, SwitchCode, ReturnCode;
    assert WholeMethod(u, prefix)[0..|prefix|] == prefix;
    InitReaches(WholeMethod(u, prefix), env, u.c, usage, t, N_REGS, st, v1);
    AfterInitLocals(u.c, usage, t, N_REGS, st);
    end := AfterInit(u.c, usage, t, N_REGS, st);
    EntryLocals(u.c, usage, t, Passed(usage, possible, 0), args, st.locals, end.locals, m, hid);
  }

  lemma EntryLocals(c: Context, usage: seq<int>, t: nat, passed: seq<Register>, args: seq<Word>, before: seq<J.Value>, locals: seq<J.Value>,
                    m: State, hid: Hidden)
    requires |usage| == N_REGS && t <= |ARGUMENTS| && Initialised(c, usage, t, N_REGS, before, locals)
    requires forall r: Register :: usage[r] > 0 <==> c.Allocated(r)
    requires |args| == |passed| <= |before| && forall i :: 0 <= i < |args| ==> before[i] == J.Int(args[i])
    requires forall i :: 0 <= i < |passed| ==> c.ra[passed[i]] == i
    requires forall r: Register :: r in passed <==> r in ARGUMENTS[..t] && usage[r] > 0
    requires StartsWith(c, passed, args, m, hid)
    ensures (forall r: Register :: c.Allocated(r) ==> c.ra[r] < |locals|) && (c.Allocated(R_MEM) ==> locals[c.ra[R_MEM]] == J.MemoryRef)
    ensures forall r: Register :: Visible(c, r) ==> locals[c.ra[r]].Int? && (Known(hid, r) ==> locals[c.ra[r]].w == m.regs[r])
  {
    forall r: Register | Visible(c, r)
      ensures locals[c.ra[r]].Int? && (Known(hid, r) ==> locals[c.ra[r]].w == m.regs[r])
    {
      if r in passed {
        var i :| 0 <= i < |passed| && passed[i] == r;
      }
    }
  }

  /** The whole translation of a method: count its registers, allocate them, emit it.  Called with the
      arguments that a caller pushes, it follows every complete run of the MIPS method from its first
      instruction to its return, whatever the registers hold that are not passed, and returns with the same
      results and memory. */
  lemma MethodCorrect(x: Emitted, usage: seq<int>, order: seq<Register>, possible: seq<Register>, t: nat,
                      args: seq<Word>, st: J.State, v1: Word, m: State, hid: Hidden, n: nat)
    requires Translatable(x.u) && ResultsHaveLocals(x.u) && CalleesAgree(x)
    requires CountsAll(x.u, usage, |x.u.p.insns|) && IsAllocationOrder(usage, order) && IsMapping(order, x.u.c.ra)
    requires IsTruncated(possible, t) && x.prefix == InitCode(x.u.c, usage, t, N_REGS)
    requires FrameOf(st, args, |order|) && StartsWith(x.u.c, Passed(usage, possible, 0), args, m, hid)
    requires BigEndian.Holds(st.memory, m.mem, hid.words)
    requires var s := Start(x.u.p.base, m);
             Run(x.u.p, x.u.env, s, n).Some? && Run(x.u.p, x.u.env, s, n).value.pc == At(x.u.p.link) &&
             HonestRun(x.u, s, hid, n)
    ensures var s := Start(x.u.p.base, m);
            Finishes(x, V.Running(0, st, v1), Run(x.u.p, x.u.env, s, n).value.m, HiddenRun(x.u, s, hid, n))
  {
    UsageCovers(x.u, usage, order);
    ZeroUncounted(x.u);
    InitHasNoLabels(x.u.c, usage, t, N_REGS);
    ReadyMethod(x);
    hide *;
    ZeroUnused(x.u, usage);
    CodeIs(x);
    RunReachable(x.u, x.u.p.base, m, hid, n);
    BaseIsFirst(x.u);
    var end := EntryCorrect(x.u, x.java, usage, order, possible, t, args, st, v1, m, hid);
    var f, g := V.Running(0, st, v1), V.Running(Offset(x.u, x.prefix, 0), end, v1);
    LandedAtInsn(x, g, 0, m, hid);
    RunCorrect(x, g, x.u.p.base, m, hid, n);
    var s := Start(x.u.p.base, m);
    FinishesAfter(x, f, g, Run(x.u.p, x.u.env, s, n).value.m, HiddenRun(x.u, s, hid, n));
  }

  lemma ReadyMethod(x: Emitted)
    requires Translatable(x.u) && ResultsHaveLocals(x.u) && CalleesAgree(x) && NoLabels(x.prefix) && ValidContext(x.u.c)
    requires forall k: nat :: k < |x.u.p.insns| && IsEmitted(x.u, k) ==> Covers(x.u.c, Compiled(x.u.p, x.u.p.insns[k]))
    ensures Ready(x) && x.u.BranchesHaveSlots() && x.u.p.WellPlaced()
  {
    hide CalleesAgree, NoLabels, ValidContext, Admissible, Covers;
  }

  /** A method that is run from its start has a first instruction. */
  lemma BaseIsFirst(u: Unit)
    requires u.p.WellPlaced() && Reachable(u, u.p.base)
    ensures |u.p.insns| > 0 && !u.IsSlot(0) && u.p.AddressOf(0) == u.p.base
  {}

  lemma ZeroUnused(u: Unit, usage: seq<int>)
    requires CountsAll(u, usage, |u.p.insns|)
    ensures |usage| == N_REGS && usage[R_ZERO] <= 0
  {
    ZeroUncounted(u);
    hide UsesAt;
  }
}
