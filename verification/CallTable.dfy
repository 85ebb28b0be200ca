/** tools/translator/calltablemethod.cc: the table through which indirect calls go.  Functions are kept by
    ascending address; the generated dispatch is split into sub-tables. */
module CallTable {
  import opened Words

  /** Strictly ascending, so without duplicates. */
  predicate Ascending(s: seq<Word>) {
    forall i, j :: 0 <= i < j < |s| ==> s[i] < s[j]
  }

  class Table {
    const functions: array<Word>
    var nFunctions: nat
    /** `m_function_table`: the addresses that have been added. */
    var functionTable: set<Word>

    ghost predicate Valid()
      reads this, functions
    {
      nFunctions <= functions.Length && Ascending(functions[..nFunctions]) &&
      forall a :: a in functionTable <==> a in functions[..nFunctions]
    }

    constructor (maxFunctions: nat)
      ensures Valid() && fresh(functions) && functions.Length == maxFunctions && nFunctions == 0 && functionTable == {}
    {
      functions := new Word[maxFunctions](_ => 0);
      nFunctions, functionTable := 0, {};
    }

    /** `addFunction`: sorted insertion; an address that is there already changes nothing. */
    method AddFunction(addr: Word)
      requires Valid() && nFunctions < functions.Length
      modifies this, functions
      ensures Valid() && functionTable == old(functionTable) + {addr}
      ensures nFunctions == old(nFunctions) + if addr in old(functionTable) then 0 else 1
    {
      if addr in functionTable {
        return;
      }
      ghost var s := functions[..nFunctions];
      functionTable := functionTable + {addr};
      var i := 0;
      while i < nFunctions && functions[i] <= addr
        invariant i <= nFunctions && forall k :: 0 <= k < i ==> functions[k] <= addr
      {
        i := i + 1;
      }
      var j := nFunctions;
      while j > i
        invariant i <= j <= nFunctions < functions.Length && nFunctions == |s| && functionTable == old(functionTable) + {addr}
        invariant forall k :: 0 <= k < j ==> functions[k] == s[k]
        invariant forall k :: j < k <= nFunctions ==> functions[k] == s[k - 1]
      {
        functions[j] := functions[j - 1];
        j := j - 1;
      }
      functions[i] := addr;
      nFunctions := nFunctions + 1;
      assert functions[..nFunctions] == s[..i] + [addr] + s[i..];
      InsertedAscending(s, i, addr);
    }
  }

  lemma InsertedAscending(s: seq<Word>, i: nat, addr: Word)
    requires Ascending(s) && i <= |s| && addr !in s
    requires (forall k :: 0 <= k < i ==> s[k] <= addr) && (i < |s| ==> s[i] > addr)
    ensures Ascending(s[..i] + [addr] + s[i..])
    ensures forall a :: a in s[..i] + [addr] + s[i..] <==> a in s || a == addr
  {
    var t := s[..i] + [addr] + s[i..];
    forall k, l | 0 <= k < l < |t| ensures t[k] < t[l] {
      assert k < i ==> s[k] in s;
    }
    assert s == s[..i] + s[i..];
  }

  // ----- the split into sub-tables -----

  /** Where sub-table `i` starts. */
  function Cut(per: nat, i: nat): nat {
    if i == 0 then 0 else Cut(per, i - 1) + per
  }

  lemma {:induction false} CutIs(per: nat, i: nat)
    ensures Cut(per, i) == i * per
    decreases i
  {
    if i > 0 {
      CutIs(per, i - 1);
      Distributes(i - 1, per);
    }
  }

  lemma Distributes(i: int, per: int)
    ensures (i + 1) * per == i * per + per
  {}

  lemma {:induction false} CutGrows(per: nat, i: nat, j: nat)
    requires i <= j
    ensures Cut(per, i) <= Cut(per, j) && (per > 0 && i < j ==> Cut(per, i) + per <= Cut(per, j))
    decreases j - i
  {
    if i < j {
      CutGrows(per, i, j - 1);
    }
  }

  /** Cutting into `n` parts stays within the functions, and misses fewer than `n` of them. */
  lemma CutsFit(total: nat, n: nat)
    requires n > 0
    ensures Cut(total / n, n) <= total < Cut(total / n, n) + n
    ensures Cut(total / n, n) == total <==> total % n == 0
  {
    CutIs(total / n, n);
    assert total == n * (total / n) + total % n;
  }

  /** The generated code: guards `lo <= address < hi` that lead to the sub-tables in turn, the last one being
      reached when none holds; and the sub-tables' cases. */
  datatype Dispatch = Dispatch(guards: seq<(Word, Word)>, tables: seq<seq<Word>>)

  /** The sub-table an address is sent to: the first whose guard holds, else the last. */
  function Route(guards: seq<(Word, Word)>, a: Word, i: nat): nat
    requires i <= |guards|
    decreases |guards| - i
  {
    if i == |guards| || guards[i].0 <= a < guards[i].1 then i else Route(guards, a, i + 1)
  }

  /** An address is called through the sub-table it is sent to; a missing case is an exception. */
  predicate Calls(d: Dispatch, a: Word) {
    Route(d.guards, a, 0) < |d.tables| && a in d.tables[Route(d.guards, a, 0)]
  }

  /** Guard `i` stands for the functions of sub-table `i`. */
  ghost predicate GuardAt(s: seq<Word>, per: nat, guards: seq<(Word, Word)>, i: nat)
    requires i < |guards|
  {
    Cut(per, i + 1) < |s| && Cut(per, i) < |s| && guards[i] == (s[Cut(per, i)], s[Cut(per, i + 1)])
  }

  ghost predicate Guarded(s: seq<Word>, per: nat, n: nat, guards: seq<(Word, Word)>) {
    |guards| + 1 == n && Cut(per, n) <= |s| &&
    forall i :: 0 <= i < |guards| ==> GuardAt(s, per, guards, i)
  }

  /** The functions of sub-table `i`, when the last one ends at `end`. */
  function Part(s: seq<Word>, per: nat, n: nat, i: nat, end: nat): seq<Word>
    requires i < n && Cut(per, i) <= Cut(per, i + 1) <= |s| && Cut(per, i) <= end <= |s|
  {
    if i == n - 1 then s[Cut(per, i)..end] else s[Cut(per, i)..Cut(per, i + 1)]
  }

  lemma PartFits(s: seq<Word>, per: nat, n: nat, i: nat, end: nat)
    requires i < n && Cut(per, n) <= end <= |s|
    ensures Cut(per, i) <= Cut(per, i + 1) <= |s| && Cut(per, i) <= end
  {
    CutGrows(per, i, i + 1);
    CutGrows(per, i + 1, n);
  }

  ghost predicate TableAt(s: seq<Word>, per: nat, n: nat, end: nat, tables: seq<seq<Word>>, i: nat)
    requires i < n && i < |tables|
  {
    Cut(per, i) <= Cut(per, i + 1) <= |s| && Cut(per, i) <= end <= |s| && tables[i] == Part(s, per, n, i, end)
  }

  ghost predicate Tabled(s: seq<Word>, per: nat, n: nat, end: nat, tables: seq<seq<Word>>) {
    Cut(per, n) <= end <= |s| && |tables| == n &&
    forall i :: 0 <= i < n ==> TableAt(s, per, n, end, tables, i)
  }

  /** `generateHierarchy`: the last sub-table takes all the functions that are left. */
  method GenerateHierarchy(functions: seq<Word>, n: nat) returns (d: Dispatch)
    requires 1 <= n < |functions|
    ensures var per := |functions| / n;
            Guarded(functions, per, n, d.guards) && Tabled(functions, per, n, |functions|, d.tables)
  {
    var per := |functions| / n;
    CutsFit(|functions|, n);
    d := Generate(functions, per, n, |functions|);
  }

  /** The class split of `pass2`: every class, the last one too, takes the same number of functions. */
  method GenerateClasses(functions: seq<Word>, n: nat) returns (d: Dispatch)
    requires 1 <= n < |functions|
    ensures var per := |functions| / n;
            Guarded(functions, per, n, d.guards) && Tabled(functions, per, n, Cut(per, n), d.tables)
  {
    var per := |functions| / n;
    CutsFit(|functions|, n);
    d := Generate(functions, per, n, Cut(per, n));
  }

  method Generate(functions: seq<Word>, per: nat, n: nat, end: nat) returns (d: Dispatch)
    requires 1 <= n < |functions| && per == |functions| / n && Cut(per, n) <= end <= |functions|
    ensures Guarded(functions, per, n, d.guards) && Tabled(functions, per, n, end, d.tables)
  {
    PerPositive(|functions|, n);
    hide GuardAt, TableAt;
    var guards, tables := [], [];
    for i := 0 to n - 1
      invariant |guards| == i && forall k :: 0 <= k < i ==> GuardAt(functions, per, guards, k)
    {
      CutGrows(per, i, n);
      CutGrows(per, i + 1, n);
      NextGuard(functions, per, guards, i);
      guards := guards + [(functions[Cut(per, i)], functions[Cut(per, i + 1)])];
    }
    for i := 0 to n
      invariant |tables| == i && forall k :: 0 <= k < i ==> TableAt(functions, per, n, end, tables, k)
    {
      PartFits(functions, per, n, i, end);
      NextTable(functions, per, n, end, tables, i);
      tables := tables + [Part(functions, per, n, i, end)];
    }
    d := Dispatch(guards, tables);
  }

  lemma NextGuard(s: seq<Word>, per: nat, guards: seq<(Word, Word)>, i: nat)
    requires |guards| == i && Cut(per, i) < |s| && Cut(per, i + 1) < |s|
    ensures var g := guards + [(s[Cut(per, i)], s[Cut(per, i + 1)])];
            GuardAt(s, per, g, i) && forall k :: 0 <= k < i && GuardAt(s, per, guards, k) ==> GuardAt(s, per, g, k)
  {}

  lemma NextTable(s: seq<Word>, per: nat, n: nat, end: nat, tables: seq<seq<Word>>, i: nat)
    requires |tables| == i < n && Cut(per, i) <= Cut(per, i + 1) <= |s| && Cut(per, i) <= end <= |s|
    ensures var t := tables + [Part(s, per, n, i, end)];
            TableAt(s, per, n, end, t, i) &&
            forall k :: 0 <= k < i && TableAt(s, per, n, end, tables, k) ==> TableAt(s, per, n, end, t, k)
  {}

  lemma PerPositive(total: nat, n: nat)
    requires 1 <= n <= total
    ensures total / n >= 1
  {
    CutsFit(total, n);
    if total / n == 0 {
      CutIs(0, n);
    }
  }

  // ----- routing -----

  /** The sub-table whose range holds index `k`. */
  ghost predicate InPart(per: nat, n: nat, k: nat, i: nat) {
    i < n && Cut(per, i) <= k && (i == n - 1 || k < Cut(per, i + 1))
  }

  lemma {:induction false} PartExists(per: nat, n: nat, k: nat, i: nat) returns (r: nat)
    requires i < n && Cut(per, i) <= k
    ensures InPart(per, n, k, r)
    decreases n - i
  {
    if i == n - 1 || k < Cut(per, i + 1) {
      r := i;
    } else {
      r := PartExists(per, n, k, i + 1);
    }
  }

  lemma {:induction false} RouteFinds(s: seq<Word>, per: nat, n: nat, guards: seq<(Word, Word)>, k: nat, r: nat, i: nat)
    requires Ascending(s) && Guarded(s, per, n, guards) && k < |s| && InPart(per, n, k, r) && i <= r
    ensures Route(guards, s[k], i) == r
    decreases r - i
  {
    if i < r {
      CutGrows(per, i + 1, r);
      assert s[Cut(per, i + 1)] <= s[k];
      hide Guarded, Ascending;
      assert !(guards[i].0 <= s[k] < guards[i].1) by { GuardIs(s, per, n, guards, i); }
      RouteFinds(s, per, n, guards, k, r, i + 1);
    } else if r < |guards| {
      GuardIs(s, per, n, guards, r);
      assert s[Cut(per, r)] <= s[k];
    } else {
      GuardCount(s, per, n, guards);
    }
  }

  lemma GuardCount(s: seq<Word>, per: nat, n: nat, guards: seq<(Word, Word)>)
    requires Guarded(s, per, n, guards)
    ensures |guards| + 1 == n
  {}

  lemma GuardIs(s: seq<Word>, per: nat, n: nat, guards: seq<(Word, Word)>, i: nat)
    requires Guarded(s, per, n, guards) && i < |guards|
    ensures Cut(per, i + 1) < |s| && Cut(per, i) < |s| && guards[i] == (s[Cut(per, i)], s[Cut(per, i + 1)])
  {
    assert GuardAt(s, per, guards, i);
  }

  /** A registered function's case stands in the sub-table it is sent to exactly when the sub-tables reach it. */
  lemma CalledIff(s: seq<Word>, per: nat, n: nat, end: nat, d: Dispatch, k: nat)
    requires Ascending(s) && k < |s| && n >= 1 && Guarded(s, per, n, d.guards) && Tabled(s, per, n, end, d.tables)
    ensures Calls(d, s[k]) <==> k < end
  {
    assert Cut(per, 0) == 0;
    var r := PartExists(per, n, k, 0);
    RouteFinds(s, per, n, d.guards, k, r, 0);
    PartFits(s, per, n, r, end);
    CutGrows(per, r + 1, n);
    var part := Part(s, per, n, r, end);
    assert TableAt(s, per, n, end, d.tables, r);
    hide Guarded, Tabled, Route;
    if k < end {
      assert part[k - Cut(per, r)] == s[k];
    } else {
      assert forall i :: 0 <= i < |part| ==> part[i] == s[Cut(per, r) + i];
    }
  }

  /** No other sub-table holds it: the cases of different sub-tables are different functions. */
  lemma PartsDisjoint(s: seq<Word>, per: nat, n: nat, end: nat, tables: seq<seq<Word>>, i: nat, j: nat)
    requires Ascending(s) && Tabled(s, per, n, end, tables) && i < j < n
    ensures forall a :: a in tables[i] ==> a !in tables[j]
  {
    PartFits(s, per, n, i, end);
    PartFits(s, per, n, j, end);
    CutGrows(per, i + 1, j);
    var p, q := Part(s, per, n, i, end), Part(s, per, n, j, end);
    assert TableAt(s, per, n, end, tables, i) && TableAt(s, per, n, end, tables, j);
    forall x, y | 0 <= x < |p| && 0 <= y < |q| ensures p[x] != q[y] {
      assert p[x] == s[Cut(per, i) + x] && q[y] == s[Cut(per, j) + y];
    }
    hide Tabled, Ascending;
  }

  /** Through the hierarchy, every registered function can be called. */
  lemma HierarchyComplete(s: seq<Word>, n: nat, d: Dispatch)
    requires Ascending(s) && 1 <= n < |s|
    requires Guarded(s, |s| / n, n, d.guards) && Tabled(s, |s| / n, n, |s|, d.tables)
    ensures forall k :: 0 <= k < |s| ==> Calls(d, s[k])
  {
    hide Calls, Guarded, Tabled, Ascending;
    forall k | 0 <= k < |s| ensures Calls(d, s[k]) {
      CalledIff(s, |s| / n, n, |s|, d, k);
    }
  }

  /** Through the classes, every registered function can be called exactly when their number divides the
      number of functions; otherwise the functions of highest address are lost. */
  lemma ClassesCompleteIff(s: seq<Word>, n: nat, d: Dispatch)
    requires Ascending(s) && 1 <= n < |s|
    requires Guarded(s, |s| / n, n, d.guards) && Tabled(s, |s| / n, n, Cut(|s| / n, n), d.tables)
    ensures (forall k :: 0 <= k < |s| ==> Calls(d, s[k])) <==> |s| % n == 0
  {
    CutsFit(|s|, n);
    ReachedIff(s, |s| / n, n, d);
    hide *;
  }

  lemma ReachedIff(s: seq<Word>, per: nat, n: nat, d: Dispatch)
    requires Ascending(s) && 1 <= n < |s| && Cut(per, n) <= |s|
    requires Guarded(s, per, n, d.guards) && Tabled(s, per, n, Cut(per, n), d.tables)
    ensures (forall k :: 0 <= k < |s| ==> Calls(d, s[k])) <==> Cut(per, n) == |s|
  {
    hide Calls, Guarded, Tabled, Ascending, Cut;
    forall k | 0 <= k < |s| ensures Calls(d, s[k]) <==> k < Cut(per, n) {
      CalledIff(s, per, n, Cut(per, n), d, k);
    }
    assert Calls(d, s[|s| - 1]) <==> Cut(per, n) == |s|;
  }
}
