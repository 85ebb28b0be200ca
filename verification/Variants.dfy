/** The other ways in which partial memory operations are translated: a subroutine in the method for lb, lbu,
    lh and lhu, and one unaligned runtime access for an lwl/lwr or swl/swr pair. */
module Variants {
  import opened Words
  import opened Options
  import opened BigEndian
  import opened Mips
  import J = Jvm
  import opened Translation
  import opened StraightLine
  import opened Correctness
  import CRunTime

  // ----- the subroutine (JavaMethod::emitLoadSubroutine) -----

  /** The subroutine between its label and its `ret`. */
  function Subroutine(c: Context, op: LoadOp): seq<J.Bytecode>
    requires op != Lw
  {
    var last := PushConst(LastByte(op));
    [J.Astore(c.ra[R_MADR]), J.Dup, PushRegister(c, R_MEM), J.Swap]
    + [PushConst(2), J.Iushr] + [J.Iaload, J.Swap]
    + [last, J.Iand] + [last, J.Swap, J.Isub] + [PushConst(3), J.Ishl] + [J.Iushr]
    + Convert(op)
  }

  /** After the entry: the address twice around the memory, the return address in its local. */
  lemma EntryRuns(c: Context, saved: set<nat>, m: State, j: J.State, e: Word, s: J.Stack)
    requires ValidContext(c) && Related(c, saved, m, j) && c.Allocated(R_MEM) && c.Allocated(R_MADR)
    ensures c.ra[R_MADR] < |j.locals|
    ensures var j1 := j.(locals := j.locals[c.ra[R_MADR] := J.ReturnAddress]);
            Runs([J.Astore(c.ra[R_MADR]), J.Dup, PushRegister(c, R_MEM), J.Swap], Stk(j, J.On(J.ReturnAddress, I(e, s))),
                 Stk(j1, I(e, J.On(J.MemoryRef, I(e, s))))) &&
            Related(c, saved, m, j1)
  {
    ReturnLocal(c, saved, m, j);
    var j1 := j.(locals := j.locals[c.ra[R_MADR] := J.ReturnAddress]);
    MemoryPushes(c, saved, m, j1, I(e, I(e, s)));
    EntrySteps(c, j, e, s);
    hide Related, PushRegister, J.Step;
    Run4(J.Astore(c.ra[R_MADR]), J.Dup, PushRegister(c, R_MEM), J.Swap, Stk(j, J.On(J.ReturnAddress, I(e, s))),
         Stk(j1, I(e, s)), Stk(j1, I(e, I(e, s))), Stk(j1, J.On(J.MemoryRef, I(e, I(e, s)))),
         Stk(j1, I(e, J.On(J.MemoryRef, I(e, s)))));
  }

  lemma EntrySteps(c: Context, j: J.State, e: Word, s: J.Stack)
    requires c.Allocated(R_MADR) && c.ra[R_MADR] < |j.locals|
    ensures var j1 := j.(locals := j.locals[c.ra[R_MADR] := J.ReturnAddress]);
            J.Step(J.Astore(c.ra[R_MADR]), Stk(j, J.On(J.ReturnAddress, I(e, s)))) == Some(Stk(j1, I(e, s))) &&
            J.Step(J.Dup, Stk(j1, I(e, s))) == Some(Stk(j1, I(e, I(e, s)))) &&
            J.Step(J.Swap, Stk(j1, J.On(J.MemoryRef, I(e, I(e, s))))) == Some(Stk(j1, I(e, J.On(J.MemoryRef, I(e, s)))))
  {}

  lemma ReturnLocal(c: Context, saved: set<nat>, m: State, j: J.State)
    requires ValidContext(c) && Related(c, saved, m, j) && c.Allocated(R_MEM) && c.Allocated(R_MADR)
    ensures c.ra[R_MADR] < |j.locals|
    ensures Related(c, saved, m, j.(locals := j.locals[c.ra[R_MADR] := J.ReturnAddress]))
  {
    hide Holds;
  }

  lemma FetchRuns(j: J.State, i: Word, e: Word, s: J.Stack)
    requires i < |j.memory|
    ensures Runs([J.Iaload, J.Swap], Stk(j, I(i, J.On(J.MemoryRef, I(e, s)))), Stk(j, I(e, I(j.memory[i], s))))
  {
    FetchSteps(j, i, e, s);
    hide J.Step;
    Run2(J.Iaload, J.Swap, Stk(j, I(i, J.On(J.MemoryRef, I(e, s)))), Stk(j, I(j.memory[i], I(e, s))), Stk(j, I(e, I(j.memory[i], s))));
  }

  lemma FetchSteps(j: J.State, i: Word, e: Word, s: J.Stack)
    requires i < |j.memory|
    ensures J.Step(J.Iaload, Stk(j, I(i, J.On(J.MemoryRef, I(e, s))))) == Some(Stk(j, I(j.memory[i], I(e, s))))
    ensures J.Step(J.Swap, Stk(j, I(j.memory[i], I(e, s)))) == Some(Stk(j, I(e, I(j.memory[i], s))))
  {}

  lemma SubtractRuns(j: J.State, a: Word, last: Word, s: J.Stack)
    requires last in {2, 3}
    ensures Runs([PushConst(last), J.Swap, J.Isub], Stk(j, I(a, s)), Stk(j, I(Wrap(last - a), s)))
  {
    ConstPushes(last, j, I(a, s));
    SwapRuns(j, last, a, s);
    IntStep(J.Isub, j, last, a, s);
    SwapStep(j, last, a, s);
    hide PushConst, J.Step;
    Run3(PushConst(last), J.Swap, J.Isub, Stk(j, I(a, s)), Stk(j, I(last, I(a, s))), Stk(j, I(a, I(last, s))),
         Stk(j, I(Wrap(last - a), s)));
  }

  lemma SwapStep(j: J.State, a: Word, b: Word, s: J.Stack)
    ensures J.Step(J.Swap, Stk(j, I(a, I(b, s)))) == Some(Stk(j, I(b, I(a, s))))
  {}

  /** The bit position, from the address on top. */
  lemma PositionLeft(j: J.State, last: Word, e: Word, s: J.Stack)
    requires last in {2, 3}
    ensures Runs([PushConst(last), J.Iand] + [PushConst(last), J.Swap, J.Isub] + [PushConst(3), J.Ishl],
                 Stk(j, I(e, s)), Stk(j, I(CRunTime.BitPosition(last, e), s)))
  {
    IntMeanings(e, last);
    hide PushConst, WordAnd, ShiftLeft, Runs, J.BinaryInt, CRunTime.BitPosition;
    var a := WordAnd(e, last);
    var d := Wrap(last - a);
    var c1, c2 := [PushConst(last), J.Iand], [PushConst(last), J.Swap, J.Isub];
    ConstIntRuns(J.Iand, j, e, last, s);
    SubtractRuns(j, a, last, s);
    ScaleRuns(j, last, e, d, s);
    Then(c1, c2, Stk(j, I(e, s)), Stk(j, I(a, s)), Stk(j, I(d, s)));
    Then(c1 + c2, [PushConst(3), J.Ishl], Stk(j, I(e, s)), Stk(j, I(d, s)), Stk(j, I(CRunTime.BitPosition(last, e), s)));
  }

  lemma ScaleRuns(j: J.State, last: Word, e: Word, d: Word, s: J.Stack)
    requires d == Wrap(last - WordAnd(e, last))
    ensures Runs([PushConst(3), J.Ishl], Stk(j, I(d, s)), Stk(j, I(CRunTime.BitPosition(last, e), s)))
  {
    IntMeanings(d, 3);
    PositionIs(last, e);
    hide PushConst, WordAnd, ShiftLeft, Runs, J.BinaryInt, CRunTime.BitPosition;
    ConstIntRuns(J.Ishl, j, d, 3, s);
  }

  lemma PositionIs(last: Word, e: Word)
    ensures CRunTime.BitPosition(last, e) == ShiftLeft(Wrap(last - WordAnd(e, last)), 3)
  {
    hide WordAnd, ShiftLeft;
  }

  lemma QuarterInRange(c: Context, saved: set<nat>, m: State, j: J.State, op: LoadOp, e: Word)
    requires Related(c, saved, m, j) && LoadResult(op, m.mem, e).Some?
    ensures e / 4 < |j.memory|
  {
    assert e < |m.mem| == 4 * |j.memory|;
  }

  /** The subroutine leaves the loaded value and changes no register's local. */
  lemma SubroutineCorrect(c: Context, saved: set<nat>, m: State, j: J.State, op: LoadOp, e: Word, s: J.Stack)
    requires ValidContext(c) && Related(c, saved, m, j) && c.Allocated(R_MEM) && c.Allocated(R_MADR) && op != Lw
    requires LoadResult(op, m.mem, e).Some? && e / 4 !in saved
    ensures c.ra[R_MADR] < |j.locals|
    ensures var j1 := j.(locals := j.locals[c.ra[R_MADR] := J.ReturnAddress]);
            Runs(Subroutine(c, op), Stk(j, J.On(J.ReturnAddress, I(e, s))), Stk(j1, I(LoadResult(op, m.mem, e).value, s))) &&
            Related(c, saved, m, j1)
  {
    RelatedMemory(c, saved, m, j);
    PartialValue(op, j.memory, m.mem, saved, e) by { hide Related; }
    hide Related, PushRegister, PushConst, Converted, Convert, ShiftRightLogical, CRunTime.BitPosition, Runs, LoadResult,
         Holds, SubroutineTail, SubroutineHead;
    SubroutineStarts(c, saved, m, j, op, e, s);
    var j1 := j.(locals := j.locals[c.ra[R_MADR] := J.ReturnAddress]);
    var w, b := j.memory[e / 4], CRunTime.BitPosition(LastByte(op), e);
    SubroutineEnds(c, j1, op, e, w, b, s);
    Then(SubroutineHead(c), SubroutineTail(op), Stk(j, J.On(J.ReturnAddress, I(e, s))), Stk(j1, I(e, I(w, s))),
         Stk(j1, I(Converted(op, ShiftRightLogical(w, b)), s)));
    SubroutineParts(c, op);
  }

  function SubroutineHead(c: Context): seq<J.Bytecode> {
    [J.Astore(c.ra[R_MADR]), J.Dup, PushRegister(c, R_MEM), J.Swap] + [PushConst(2), J.Iushr] + [J.Iaload, J.Swap]
  }

  lemma SubroutineParts(c: Context, op: LoadOp)
    requires op != Lw
    ensures Subroutine(c, op) == SubroutineHead(c) + SubroutineTail(op)
  {
    hide PushRegister, PushConst, Convert;
  }

  /** The word that holds the address, below the address. */
  lemma SubroutineStarts(c: Context, saved: set<nat>, m: State, j: J.State, op: LoadOp, e: Word, s: J.Stack)
    requires ValidContext(c) && Related(c, saved, m, j) && c.Allocated(R_MEM) && c.Allocated(R_MADR)
    requires LoadResult(op, m.mem, e).Some?
    ensures c.ra[R_MADR] < |j.locals| && e / 4 < |j.memory|
    ensures var j1 := j.(locals := j.locals[c.ra[R_MADR] := J.ReturnAddress]);
            Related(c, saved, m, j1) &&
            Runs(SubroutineHead(c), Stk(j, J.On(J.ReturnAddress, I(e, s))), Stk(j1, I(e, I(j.memory[e / 4], s))))
  {
    QuarterInRange(c, saved, m, j, op, e);
    hide Related, PushRegister, PushConst, Runs, LoadResult, ValidContext;
    EntryRuns(c, saved, m, j, e, s);
    var j1 := j.(locals := j.locals[c.ra[R_MADR] := J.ReturnAddress]);
    var s0, s1 := Stk(j, J.On(J.ReturnAddress, I(e, s))), Stk(j1, I(e, J.On(J.MemoryRef, I(e, s))));
    var c1, s2 := [J.Astore(c.ra[R_MADR]), J.Dup, PushRegister(c, R_MEM), J.Swap], Stk(j1, I(e / 4, J.On(J.MemoryRef, I(e, s))));
    QuarterRuns(j1, e, J.On(J.MemoryRef, I(e, s)));
    Then(c1, [PushConst(2), J.Iushr], s0, s1, s2);
    FetchRuns(j1, e / 4, e, s);
    Then(c1 + [PushConst(2), J.Iushr], [J.Iaload, J.Swap], s0, s2, Stk(j1, I(e, I(j.memory[e / 4], s))));
  }

  function SubroutineTail(op: LoadOp): seq<J.Bytecode>
    requires op != Lw
  {
    var last := PushConst(LastByte(op));
    [last, J.Iand] + [last, J.Swap, J.Isub] + [PushConst(3), J.Ishl] + [J.Iushr] + Convert(op)
  }

  lemma SubroutineEnds(c: Context, j: J.State, op: LoadOp, e: Word, w: Word, b: Word, s: J.Stack)
    requires op != Lw && b == CRunTime.BitPosition(LastByte(op), e) && b < 32
    ensures Runs(SubroutineTail(op), Stk(j, I(e, I(w, s))), Stk(j, I(Converted(op, ShiftRightLogical(w, b)), s)))
  {
    hide PushConst, Converted, Convert, ShiftRightLogical, CRunTime.BitPosition, Runs;
    var last := LastByte(op);
    var x := ShiftRightLogical(w, b);
    PositionLeft(j, last, e, I(w, s));
    ShiftStep(j, w, b, s);
    ConvertRuns(j, op, x, s);
    var c1 := [PushConst(last), J.Iand] + [PushConst(last), J.Swap, J.Isub] + [PushConst(3), J.Ishl];
    Then(c1, [J.Iushr], Stk(j, I(e, I(w, s))), Stk(j, I(b, I(w, s))), Stk(j, I(x, s)));
    Then(c1 + [J.Iushr], Convert(op), Stk(j, I(e, I(w, s))), Stk(j, I(x, s)), Stk(j, I(Converted(op, x), s)));
  }

  lemma RelatedMemory(c: Context, saved: set<nat>, m: State, j: J.State)
    requires Related(c, saved, m, j)
    ensures Holds(j.memory, m.mem, saved)
  {}

  /** The three variants leave the same value: inlined (when the address does not wrap), by runtime call, and
      by subroutine. */
  lemma LoadVariantsAgree(c: Context, saved: set<nat>, m: State, j: J.State, op: LoadOp, rs: Field, offset: Immediate, s: J.Stack)
    requires ValidContext(c) && Related(c, saved, m, j) && Readable(c, rs) && c.Allocated(R_MEM) && c.Allocated(R_MADR)
    requires op != Lw && Unwrapped(m.Reg(rs), offset)
    requires LoadResult(op, m.mem, m.Address(rs, offset)).Some? && m.Address(rs, offset) / 4 !in saved
    ensures var v := LoadResult(op, m.mem, m.Address(rs, offset)).value;
            Runs(LoadCode(c.(inlines := true), op, rs, offset), Stk(j, s), Stk(j, I(v, s))) &&
            Runs(LoadCode(c.(inlines := false), op, rs, offset), Stk(j, s), Stk(j, I(v, s))) &&
            Runs(PushAddress(c, rs, offset), Stk(j, s), Stk(j, I(m.Address(rs, offset), s))) &&
            c.ra[R_MADR] < |j.locals| &&
            Runs(Subroutine(c, op), Stk(j, J.On(J.ReturnAddress, I(m.Address(rs, offset), s))),
                 Stk(j.(locals := j.locals[c.ra[R_MADR] := J.ReturnAddress]), I(v, s)))
  {
    SameContext(c, saved, m, j, rs);
    IndexIsAddressIff(m.Reg(rs), offset);
    hide Related, LoadCode, Runs, LoadResult, Index, ValidContext, Readable, Subroutine, PushAddress;
    LoadRuns(c.(inlines := true), saved, m, j, op, rs, offset, s);
    LoadRuns(c.(inlines := false), saved, m, j, op, rs, offset, s);
    AddressRuns(c, saved, m, j, rs, offset, s);
    SubroutineCorrect(c, saved, m, j, op, m.Address(rs, offset), s);
  }

  lemma SameContext(c: Context, saved: set<nat>, m: State, j: J.State, rs: Field)
    requires ValidContext(c) && Related(c, saved, m, j) && Readable(c, rs)
    ensures forall b :: ValidContext(c.(inlines := b)) && Related(c.(inlines := b), saved, m, j) && Readable(c.(inlines := b), rs)
  {
    hide Holds;
  }

  // ----- unaligned pairs -----

  /** `lwl` and `lwr`, big-endian: each merges the bytes from its address up, or down, into the register. */
  function LoadLeftByte(was: Word, mem: seq<Byte>, a: Word, i: nat): Byte
    requires i < 4 && a - a % 4 + 3 < |mem|
  {
    if i < 4 - a % 4 then mem[a + i] else ByteOf(was, i)
  }

  function LoadLeft(was: Word, mem: seq<Byte>, a: Word): Option<Word> {
    if a - a % 4 + 3 >= |mem| then None
    else Some(Join(LoadLeftByte(was, mem, a, 0), LoadLeftByte(was, mem, a, 1), LoadLeftByte(was, mem, a, 2), LoadLeftByte(was, mem, a, 3)))
  }

  function LoadRightByte(was: Word, mem: seq<Byte>, a: Word, i: nat): Byte
    requires i < 4 && a - a % 4 + 3 < |mem|
  {
    if i >= 3 - a % 4 then mem[a - 3 + i] else ByteOf(was, i)
  }

  function LoadRight(was: Word, mem: seq<Byte>, a: Word): Option<Word> {
    if a - a % 4 + 3 >= |mem| then None
    else Some(Join(LoadRightByte(was, mem, a, 0), LoadRightByte(was, mem, a, 1), LoadRightByte(was, mem, a, 2), LoadRightByte(was, mem, a, 3)))
  }

  function WordFrom(mem: seq<Byte>, e: nat): Word
    requires e + 3 < |mem|
  {
    Join(mem[e], mem[e + 1], mem[e + 2], mem[e + 3])
  }

  lemma WordFits(mem: seq<Byte>, e: Word)
    requires e + 3 < |mem| && |mem| % 4 == 0 && |mem| <= 0x8000_0000
    ensures e + 3 < 0x1_0000_0000 && e - e % 4 + 3 < |mem| && (e + 3) - (e + 3) % 4 + 3 < |mem|
  {}

  /** Whichever comes first, the pair loads the four bytes from `e` on, whatever the register held. */
  lemma PairLoads(was: Word, mem: seq<Byte>, e: Word)
    requires e + 3 < |mem| && |mem| % 4 == 0 && |mem| <= 0x8000_0000
    ensures var x := LoadLeft(was, mem, e);
            x.Some? && LoadRight(x.value, mem, e + 3) == Some(WordFrom(mem, e))
    ensures var y := LoadRight(was, mem, e + 3);
            y.Some? && LoadLeft(y.value, mem, e) == Some(WordFrom(mem, e))
  {
    WordFits(mem, e);
    LeftBytes(was, mem, e);
    RightBytes(was, mem, e + 3);
    var x, y := LoadLeft(was, mem, e).value, LoadRight(was, mem, e + 3).value;
    LeftThenRight(was, x, mem, e, 0);
    LeftThenRight(was, x, mem, e, 1);
    LeftThenRight(was, x, mem, e, 2);
    LeftThenRight(was, x, mem, e, 3);
    RightThenLeft(was, y, mem, e, 0);
    RightThenLeft(was, y, mem, e, 1);
    RightThenLeft(was, y, mem, e, 2);
    RightThenLeft(was, y, mem, e, 3);
    hide Join, ByteOf, LoadLeftByte, LoadRightByte;
  }

  lemma LeftBytes(was: Word, mem: seq<Byte>, a: Word)
    requires a - a % 4 + 3 < |mem|
    ensures forall i: nat :: i < 4 ==> ByteOf(LoadLeft(was, mem, a).value, i) == LoadLeftByte(was, mem, a, i)
  {
    hide Join, ByteOf, LoadLeftByte;
    BytesOfJoin(LoadLeftByte(was, mem, a, 0), LoadLeftByte(was, mem, a, 1), LoadLeftByte(was, mem, a, 2), LoadLeftByte(was, mem, a, 3));
  }

  lemma RightBytes(was: Word, mem: seq<Byte>, a: Word)
    requires a - a % 4 + 3 < |mem|
    ensures forall i: nat :: i < 4 ==> ByteOf(LoadRight(was, mem, a).value, i) == LoadRightByte(was, mem, a, i)
  {
    hide Join, ByteOf, LoadRightByte;
    BytesOfJoin(LoadRightByte(was, mem, a, 0), LoadRightByte(was, mem, a, 1), LoadRightByte(was, mem, a, 2), LoadRightByte(was, mem, a, 3));
  }

  lemma LeftThenRight(was: Word, x: Word, mem: seq<Byte>, e: Word, i: nat)
    requires i < 4 && e + 3 < 0x1_0000_0000 && e - e % 4 + 3 < |mem| && (e + 3) - (e + 3) % 4 + 3 < |mem|
    requires ByteOf(x, i) == LoadLeftByte(was, mem, e, i)
    ensures LoadRightByte(x, mem, e + 3, i) == mem[e + i]
  {
    hide ByteOf;
  }

  lemma RightThenLeft(was: Word, y: Word, mem: seq<Byte>, e: Word, i: nat)
    requires i < 4 && e + 3 < 0x1_0000_0000 && e - e % 4 + 3 < |mem| && (e + 3) - (e + 3) % 4 + 3 < |mem|
    requires ByteOf(y, i) == LoadRightByte(was, mem, e + 3, i)
    ensures LoadLeftByte(y, mem, e, i) == mem[e + i]
  {
    hide ByteOf;
  }

  /** `swl` and `swr`: each stores the bytes from its address up, or down, within the aligned word. */
  function StoredLeft(mem: seq<Byte>, a: Word, v: Word, k: nat): Byte
    requires k < |mem|
  {
    if a <= k < a - a % 4 + 4 then ByteOf(v, k - a) else mem[k]
  }

  function StoreLeft(mem: seq<Byte>, a: Word, v: Word): Option<seq<Byte>> {
    if a - a % 4 + 3 >= |mem| then None
    else Some(seq(|mem|, k requires 0 <= k < |mem| => StoredLeft(mem, a, v, k)))
  }

  function StoredRight(mem: seq<Byte>, a: Word, v: Word, k: nat): Byte
    requires k < |mem|
  {
    if a - a % 4 <= k <= a then ByteOf(v, k - a + 3) else mem[k]
  }

  function StoreRight(mem: seq<Byte>, a: Word, v: Word): Option<seq<Byte>> {
    if a - a % 4 + 3 >= |mem| then None
    else Some(seq(|mem|, k requires 0 <= k < |mem| => StoredRight(mem, a, v, k)))
  }

  /** Whichever comes first, the pair stores the four bytes of `v` from `e` on. */
  lemma PairStores(mem: seq<Byte>, e: Word, v: Word)
    requires e + 3 < |mem| && |mem| % 4 == 0 && |mem| <= 0x8000_0000
    ensures var x := StoreLeft(mem, e, v);
            x.Some? && StoreRight(x.value, e + 3, v) == Some(CRunTime.WithWord(mem, e, v))
    ensures var y := StoreRight(mem, e + 3, v);
            y.Some? && StoreLeft(y.value, e, v) == Some(CRunTime.WithWord(mem, e, v))
  {
    WordFits(mem, e);
    hide ByteOf;
    var both := CRunTime.WithWord(mem, e, v);
    var x, y := StoreLeft(mem, e, v).value, StoreRight(mem, e + 3, v).value;
    assert StoreRight(x, e + 3, v).value == both;
    assert StoreLeft(y, e, v).value == both;
  }

  /** The translation of the pair: the first is one runtime access, the second is dropped. */
  function PairLoadCode(c: Context, rs: Field, rt: Field, offset: Immediate): seq<J.Bytecode> {
    PushAddress(c, rs, offset) + [J.Invoke(J.MemoryRead(J.ReadWordLeft))] + PopRegister(c, rt)
  }

  function PairStoreCode(c: Context, rs: Field, rt: Field, offset: Immediate): seq<J.Bytecode> {
    PushAddress(c, rs, offset) + [PushRegister(c, rt), J.Invoke(J.MemoryWrite(J.WriteWordLeft))]
  }

  lemma UnalignedValue(words: CRunTime.Memory, bytes: seq<Byte>, saved: set<nat>, e: Word)
    requires Holds(words, bytes, saved) && e + 3 < |bytes| && e / 4 !in saved && (e + 3) / 4 !in saved
    ensures CRunTime.MemoryReadWordLeft(words, e) == Some(WordFrom(bytes, e))
  {
    assert (e + 1) / 4 in {e / 4, (e + 3) / 4} && (e + 2) / 4 in {e / 4, (e + 3) / 4};
    SameByte(words, bytes, saved, e);
    SameByte(words, bytes, saved, e + 1);
    SameByte(words, bytes, saved, e + 2);
    SameByte(words, bytes, saved, e + 3);
    SameLength(words, bytes, saved);
    hide Holds, Bytes, Join;
    CRunTime.UnalignedRead(words, e);
  }

  lemma SameLength(words: seq<Word>, bytes: seq<Byte>, saved: set<nat>)
    requires Holds(words, bytes, saved)
    ensures |bytes| == 4 * |words|
  {}

  /** The emitted code loads what the lwl/lwr pair loads. */
  lemma PairLoadCorrect(c: Context, saved: set<nat>, m: State, j: J.State, rs: Field, rt: Field, offset: Immediate)
    requires ValidContext(c) && Related(c, saved, m, j) && Readable(c, rs) && rt != 0 && c.Allocated(rt)
    requires var e := m.Address(rs, offset);
             e + 3 < |m.mem| && e / 4 !in saved && (e + 3) / 4 !in saved
    ensures Simulates(c, PairLoadCode(c, rs, rt, offset), j, m.Set(rt, WordFrom(m.mem, m.Address(rs, offset))), saved)
  {
    var e := m.Address(rs, offset);
    RelatedMemory(c, saved, m, j);
    UnalignedValue(j.memory, m.mem, saved, e);
    SameState(j);
    hide Related, Simulates, PushAddress, PopRegister, CRunTime.MemoryReadWordLeft, Holds, Readable, ValidContext;
    var v := WordFrom(m.mem, e);
    hide WordFrom;
    AddressRuns(c, saved, m, j, rs, offset, j.stack);
    InvokeReadRuns(j, J.ReadWordLeft, e, v, j.stack);
    Then(PushAddress(c, rs, offset), [J.Invoke(J.MemoryRead(J.ReadWordLeft))], Stk(j, j.stack), Stk(j, I(e, j.stack)), Stk(j, I(v, j.stack)));
    IntResult(c, saved, m, j, PushAddress(c, rs, offset) + [J.Invoke(J.MemoryRead(J.ReadWordLeft))], rt, v);
  }

  lemma SameState(j: J.State)
    ensures Stk(j, j.stack) == j
  {}

  /** Byte by byte, apart from the words in `saved`. */
  lemma HoldsByBytes(words: seq<Word>, bytes: seq<Byte>, saved: set<nat>)
    requires |bytes| == 4 * |words| && forall a :: 0 <= a < |bytes| && a / 4 !in saved ==> bytes[a] == Bytes(words)[a]
    ensures Holds(words, bytes, saved)
  {
    forall i: nat | i < |words| && i !in saved
      ensures words[i] == Join(bytes[4 * i], bytes[4 * i + 1], bytes[4 * i + 2], bytes[4 * i + 3])
    {
      InWord(i);
      BytesAt(words, i);
      WordBytes(words[i], bytes[4 * i], bytes[4 * i + 1], bytes[4 * i + 2], bytes[4 * i + 3]);
      hide Join, ByteOf;
    }
  }

  lemma InWord(i: nat)
    ensures 4 * i / 4 == (4 * i + 1) / 4 == (4 * i + 2) / 4 == (4 * i + 3) / 4 == i
    ensures 4 * i % 4 == 0 && (4 * i + 1) % 4 == 1 && (4 * i + 2) % 4 == 2 && (4 * i + 3) % 4 == 3
  {}

  lemma WordBytes(w: Word, b0: Byte, b1: Byte, b2: Byte, b3: Byte)
    requires b0 == ByteOf(w, 0) && b1 == ByteOf(w, 1) && b2 == ByteOf(w, 2) && b3 == ByteOf(w, 3)
    ensures w == Join(b0, b1, b2, b3)
  {
    JoinBytes(w);
  }

  lemma UnalignedStoreHolds(words: CRunTime.Memory, bytes: seq<Byte>, saved: set<nat>, e: Word, v: Word)
    requires Holds(words, bytes, saved) && e + 3 < |bytes|
    ensures var w := CRunTime.StoreWordLeft(words, e, v);
            w.Some? && Holds(w.value, CRunTime.WithWord(bytes, e, v), saved)
  {
    SameLength(words, bytes, saved);
    CRunTime.UnalignedStore(words, e, v);
    var w := CRunTime.StoreWordLeft(words, e, v).value;
    forall a | 0 <= a < |bytes| && a / 4 !in saved ensures CRunTime.WithWord(bytes, e, v)[a] == Bytes(w)[a] {
      SameByte(words, bytes, saved, a);
      hide Holds, Bytes, ByteOf, CRunTime.StoreWordLeft;
    }
    hide Holds, Bytes, ByteOf, CRunTime.StoreWordLeft;
    HoldsByBytes(w, CRunTime.WithWord(bytes, e, v), saved);
  }

  /** The emitted code stores what the swl/swr pair stores. */
  lemma PairStoreCorrect(c: Context, saved: set<nat>, m: State, j: J.State, rs: Field, rt: Field, offset: Immediate)
    requires ValidContext(c) && Related(c, saved, m, j) && Readable(c, rs) && Readable(c, rt)
    requires m.Address(rs, offset) + 3 < |m.mem|
    ensures Simulates(c, PairStoreCode(c, rs, rt, offset), j, m.(mem := CRunTime.WithWord(m.mem, m.Address(rs, offset), m.Reg(rt))), saved)
  {
    var e, v := m.Address(rs, offset), m.Reg(rt);
    RelatedMemory(c, saved, m, j);
    UnalignedStoreHolds(j.memory, m.mem, saved, e, v);
    SameState(j);
    hide Related, Simulates, PushAddress, PushRegister, CRunTime.StoreWordLeft, CRunTime.WithWord, Holds, Readable, ValidContext, J.Step;
    var words, s := CRunTime.StoreWordLeft(j.memory, e, v).value, j.stack;
    AddressRuns(c, saved, m, j, rs, offset, s);
    RegisterPushes(c, saved, m, j, rt, I(e, s));
    InvokeWrite(j, J.WriteWordLeft, e, v, words, s);
    var call := J.Invoke(J.MemoryWrite(J.WriteWordLeft));
    Run2(PushRegister(c, rt), call, Stk(j, I(e, s)), Stk(j, I(v, I(e, s))), Stk(j, s).(memory := words));
    hide Runs;
    Then(PushAddress(c, rs, offset), [PushRegister(c, rt), call], Stk(j, s), Stk(j, I(e, s)), Stk(j, s).(memory := words));
    StoreEnds(c, PairStoreCode(c, rs, rt, offset), saved, m, j, words, CRunTime.WithWord(m.mem, e, v), saved);
  }
}
