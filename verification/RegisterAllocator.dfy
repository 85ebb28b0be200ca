/** tools/translator/registerallocator.cc: the registers a method uses get the locals 0, 1, 2, ..., first the
    possible arguments in their passing order, then the others by decreasing use. */
module RegisterAllocator {
  import opened Mips
  import opened Translation

  /** The order in which arguments are passed. */
  const ARGUMENTS: seq<Register> := [R_SP, R_FNA, R_A0, R_A1, R_A2, R_A3]

  /** The used arguments, in order. */
  function UsedArguments(usage: seq<int>, k: nat): seq<Register>
    requires |usage| == N_REGS && k <= |ARGUMENTS|
  {
    if k == 0 then []
    else UsedArguments(usage, k - 1) + if usage[ARGUMENTS[k - 1]] > 0 then [ARGUMENTS[k - 1]] else []
  }

  ghost predicate Distinct(s: seq<Register>) {
    forall i, k :: 0 <= i < k < |s| ==> s[i] != s[k]
  }

  /** `order` lists exactly the used registers: the used arguments first, the rest by decreasing use. */
  ghost predicate IsAllocationOrder(usage: seq<int>, order: seq<Register>)
    requires |usage| == N_REGS
  {
    var args := UsedArguments(usage, |ARGUMENTS|);
    Distinct(order) && args <= order &&
    (forall r: Register :: r in order <==> usage[r] > 0) &&
    Decreasing(usage, order, |args|, 0)
  }

  /** `order[i]` has local `i`; every other register has none. */
  ghost predicate IsMapping(order: seq<Register>, map_: seq<int>)
  {
    |map_| == N_REGS && (forall i :: 0 <= i < |order| ==> map_[order[i]] == i) &&
    (forall r: Register :: r !in order ==> map_[r] == -1)
  }

  class Allocator {
    const mipsToLocal: array<int>
    var nLocals: int

    predicate Valid()
      reads this
    {
      mipsToLocal.Length == N_REGS
    }

    constructor ()
      ensures Valid() && fresh(mipsToLocal)
    {
      mipsToLocal := new int[N_REGS](_ => 0);
      nLocals := 0;
    }

    /** `setAllocation`: the used arguments, then repeatedly the register of largest remaining use. */
    method SetAllocation(registerUsage: array<int>) returns (ghost order: seq<Register>)
      requires Valid() && registerUsage.Length == N_REGS && registerUsage != mipsToLocal
      modifies mipsToLocal, this`nLocals
      ensures IsAllocationOrder(registerUsage[..], order)
      ensures nLocals == |order| && IsMapping(order, mipsToLocal[..])
    {
      hide UsedArguments, Consumed, IsAllocationOrder;
      var sorted := new Register[N_REGS];
      var usage := new int[N_REGS];
      forall i | 0 <= i < N_REGS { usage[i] := registerUsage[i]; }
      assert usage[..] == registerUsage[..];
      var n := AllocateArguments(registerUsage, usage, sorted);
      n := AllocateRest(registerUsage[..], usage, sorted, n);
      order := sorted[..n];
      NumberLocals(sorted, n);
      nLocals := n;
    }

    /** The register to local mapping. */
    method NumberLocals(sorted: array<Register>, n: nat)
      requires Valid() && n <= sorted.Length && Distinct(sorted[..n]) && sorted as object != mipsToLocal
      modifies mipsToLocal
      ensures IsMapping(sorted[..n], mipsToLocal[..])
    {
      ghost var order := sorted[..n];
      forall r | 0 <= r < N_REGS { mipsToLocal[r] := -1; }
      for i := 0 to n
        invariant forall k :: 0 <= k < i ==> mipsToLocal[order[k]] == k
        invariant forall r: Register :: r !in order[..i] ==> mipsToLocal[r] == -1
      {
        assert order[i] !in order[..i];
        mipsToLocal[sorted[i]] := i;
        assert order[..i + 1] == order[..i] + [order[i]];
      }
      assert order[..n] == order;
      assert sorted[..n] == order;
      ghost var locals := mipsToLocal[..];
      assert forall r: Register :: r !in order ==> locals[r] == -1;
      assert IsMapping(order, locals);
    }
  }

  /** The initial registers: `$sp`, the function index and `$a0` to `$a3`, when used. */
  method AllocateArguments(registerUsage: array<int>, usage: array<int>, sorted: array<Register>) returns (n: nat)
    requires usage.Length == sorted.Length == registerUsage.Length == N_REGS
    requires usage != registerUsage && usage[..] == registerUsage[..]
    modifies usage, sorted
    ensures n <= |ARGUMENTS| && sorted[..n] == UsedArguments(registerUsage[..], |ARGUMENTS|)
    ensures Consumed(registerUsage[..], usage[..], sorted[..n])
  {
    ghost var given := registerUsage[..];
    n := 0;
    NothingConsumed(given);
    for k := 0 to |ARGUMENTS|
      invariant n <= k && sorted[..n] == UsedArguments(given, k)
      invariant Consumed(given, usage[..], sorted[..n])
    {
      hide UsedArguments, Consumed;
      NextArgument(given, usage[..], k);
      var reg := ARGUMENTS[k];
      if registerUsage[reg] > 0 {
        n := AllocateRegister(given, n, reg, sorted, usage);
      }
    }
  }

  lemma NothingConsumed(given: seq<int>)
    requires |given| == N_REGS
    ensures Consumed(given, given, []) && UsedArguments(given, 0) == []
  {}

  /** The next argument has not been taken yet. */
  lemma NextArgument(given: seq<int>, usage: seq<int>, k: nat)
    requires k < |ARGUMENTS| && |given| == N_REGS && Consumed(given, usage, UsedArguments(given, k))
    ensures var reg := ARGUMENTS[k];
            usage[reg] == given[reg] &&
            UsedArguments(given, k + 1) == UsedArguments(given, k) + if given[reg] > 0 then [reg] else []
  {
    UsedBefore(given, k);
    assert ARGUMENTS[k] !in ARGUMENTS[..k];
  }

  lemma {:induction false} UsedBefore(given: seq<int>, k: nat)
    requires k <= |ARGUMENTS| && |given| == N_REGS
    ensures forall r :: r in UsedArguments(given, k) ==> r in ARGUMENTS[..k]
  {
    if k != 0 {
      UsedBefore(given, k - 1);
      assert ARGUMENTS[..k] == ARGUMENTS[..k - 1] + [ARGUMENTS[k - 1]];
    }
  }

  /** `allocateRegister`. */
  method AllocateRegister(ghost given: seq<int>, n: nat, reg: Register, sorted: array<Register>, usage: array<int>)
    returns (n': nat)
    requires usage.Length == sorted.Length == N_REGS && n <= N_REGS
    requires Consumed(given, usage[..], sorted[..n]) && usage[reg] > 0
    modifies sorted, usage
    ensures n' == n + 1 <= N_REGS && sorted[..n'] == old(sorted[..n]) + [reg] && usage[..] == old(usage[..])[reg := 0]
    ensures Consumed(given, usage[..], sorted[..n'])
  {
    ConsumeOne(given, usage[..], sorted[..n], reg);
    sorted[n] := reg;
    usage[reg] := 0;
    n' := n + 1;
    assert sorted[..n'] == old(sorted[..n]) + [reg];
  }

  /** The lowest-numbered register of largest use. */
  method Largest(usage: array<int>) returns (largest: int, index: Register)
    requires usage.Length == N_REGS
    ensures IsLargest(usage[..], largest, index)
  {
    largest, index := 0, R_ZERO;
    for i := 0 to N_REGS
      invariant largest >= 0 && forall r: Register :: r < i ==> usage[r] <= largest
      invariant largest > 0 ==> usage[index] == largest && forall r: Register :: r < index ==> usage[r] < largest
    {
      if usage[i] > 0 && usage[i] > largest {
        largest, index := usage[i], i;
      }
    }
  }

  method AllocateRest(ghost given: seq<int>, usage: array<int>, sorted: array<Register>, args: nat) returns (n: nat)
    requires usage.Length == sorted.Length == N_REGS && args <= N_REGS && |given| == N_REGS
    requires sorted[..args] == UsedArguments(given, |ARGUMENTS|)
    requires Consumed(given, usage[..], sorted[..args])
    modifies usage, sorted
    ensures n <= N_REGS && IsAllocationOrder(given, sorted[..n]) && Distinct(sorted[..n])
  {
    hide UsedArguments, Consumed, IsAllocationOrder, Decreasing;
    n := args;
    var largest, index := Largest(usage);
    NoRest(given, sorted[..n]);
    while largest != 0
      invariant args <= n <= N_REGS && UsedArguments(given, |ARGUMENTS|) == sorted[..args]
      invariant Consumed(given, usage[..], sorted[..n])
      invariant IsLargest(usage[..], largest, index)
      invariant Decreasing(given, sorted[..n], args, largest)
      decreases N_REGS - n
    {
      ghost var order := sorted[..n];
      Extend(given, usage[..], order, args, largest, index);
      assert sorted[..args] == order[..args];
      n := AllocateRegister(given, n, index, sorted, usage);
      assert sorted[..args] == sorted[..n][..args];
      largest, index := Largest(usage);
      Lower(given, usage[..], sorted[..n], args, largest);
    }
    assert sorted[..args] == sorted[..n][..args];
    Finished(given, usage[..], sorted[..n], args);
  }

  ghost predicate AtMost(usage: seq<int>, x: int)
    requires |usage| == N_REGS
  {
    forall r: Register :: usage[r] <= x
  }

  ghost predicate IsLargest(usage: seq<int>, largest: int, index: Register) {
    |usage| == N_REGS && largest >= 0 && AtMost(usage, largest) &&
    (largest > 0 ==> usage[index] == largest && forall r: Register :: r < index ==> usage[r] < largest)
  }

  /** From position `from` on the uses decrease, and none is below `floor`. */
  ghost predicate Decreasing(given: seq<int>, order: seq<Register>, from: nat, floor: int)
    requires |given| == N_REGS
  {
    (forall i, k :: from <= i < k < |order| ==> given[order[i]] >= given[order[k]]) &&
    (forall i :: from <= i < |order| ==> given[order[i]] >= floor)
  }

  lemma NoRest(given: seq<int>, order: seq<Register>)
    requires |given| == N_REGS
    ensures forall floor :: Decreasing(given, order, |order|, floor)
  {}

  lemma Extend(given: seq<int>, usage: seq<int>, order: seq<Register>, args: nat, largest: int, index: Register)
    requires Consumed(given, usage, order) && IsLargest(usage, largest, index) && largest > 0
    requires Decreasing(given, order, args, largest)
    ensures usage[index] > 0 && given[index] == largest
    ensures Decreasing(given, order + [index], args, largest)
    ensures AtMost(usage[index := 0], largest)
  {}

  lemma Lower(given: seq<int>, usage: seq<int>, order: seq<Register>, args: nat, largest: int)
    requires |given| == N_REGS && exists floor :: floor >= largest && Decreasing(given, order, args, floor)
    ensures Decreasing(given, order, args, largest)
  {}

  lemma Finished(given: seq<int>, usage: seq<int>, order: seq<Register>, args: nat)
    requires Consumed(given, usage, order) && args <= |order| && order[..args] == UsedArguments(given, |ARGUMENTS|)
    requires AtMost(usage, 0) && Decreasing(given, order, args, 0)
    ensures IsAllocationOrder(given, order) && Distinct(order)
  {
    hide UsedArguments;
  }

  /** The registers taken so far are distinct, used, and exactly those whose use was zeroed. */
  ghost predicate Consumed(given: seq<int>, usage: seq<int>, order: seq<Register>) {
    |given| == |usage| == N_REGS && Distinct(order) && |order| <= N_REGS &&
    (forall i :: 0 <= i < |order| ==> given[order[i]] > 0) &&
    (forall r: Register :: usage[r] == if r in order then 0 else given[r])
  }

  /** Taking one more used register keeps this, and there is room for it. */
  lemma ConsumeOne(given: seq<int>, usage: seq<int>, order: seq<Register>, reg: Register)
    requires Consumed(given, usage, order) && usage[reg] > 0
    ensures |order| < N_REGS && Consumed(given, usage[reg := 0], order + [reg])
  {
    assert reg !in order;
    DistinctFits(order + [reg], N_REGS);
  }

  lemma {:induction false} DistinctFits(s: seq<Register>, n: nat)
    requires Distinct(s) && forall i :: 0 <= i < |s| ==> s[i] < n
    ensures |s| <= n
    decreases n
  {
    if s == [] {
    } else if s[0] < n && n - 1 in s {
      var k :| 0 <= k < |s| && s[k] == n - 1;
      DistinctFits(s[..k] + s[k + 1..], n - 1);
    } else {
      DistinctFits(s, n - 1);
    }
  }

  // ----- consequences -----

  /** Used registers get distinct locals below the count, unused ones none: a valid translation context. */
  lemma AllocationIsInjective(usage: seq<int>, order: seq<Register>, map_: seq<int>)
    requires |usage| == N_REGS && IsAllocationOrder(usage, order) && IsMapping(order, map_)
    ensures forall r: Register :: if usage[r] > 0 then 0 <= map_[r] < |order| else map_[r] == -1
    ensures forall r: Register, s: Register :: map_[r] >= 0 && map_[r] == map_[s] ==> r == s
    ensures forall i :: 0 <= i < |order| ==> usage[order[i]] > 0 && map_[order[i]] == i
  {
    forall r: Register
      ensures if usage[r] > 0 then 0 <= map_[r] < |order| && order[map_[r]] == r else map_[r] == -1
    {
      if usage[r] > 0 {
        assert r in order;
        var i :| 0 <= i < |order| && order[i] == r;
      }
    }
  }
}
