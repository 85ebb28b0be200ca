/** What only the MIPS machine knows.  A method is entered with callers' values in registers that are not passed;
    it may save such a register to memory and restore it, and the translated method, whose local starts at zero,
    does the same with another value.  This module keeps track of the registers and words where the two machines
    may differ, and carries the instruction theorem over to machines that are related apart from them. */
module HiddenValues {
  import opened Words
  import opened Options
  import opened BigEndian
  import opened Mips
  import J = Jvm
  import opened Translation
  import opened StraightLine
  import opened Correctness

  /** The words and the registers in which the two machines may differ. */
  datatype Hidden = Hidden(words: set<nat>, regs: set<nat>)

  predicate Known(hid: Hidden, r: nat) {
    r == 0 || r !in hid.regs
  }

  /** The machines are related apart from what is hidden. */
  ghost predicate Seen(c: Context, hid: Hidden, m: State, j: J.State) {
    (forall r: Register :: c.Allocated(r) ==> c.ra[r] < |j.locals|) &&
    (forall r: Register :: Visible(c, r) ==> j.locals[c.ra[r]].Int? && (Known(hid, r) ==> j.locals[c.ra[r]].w == m.regs[r])) &&
    (c.Allocated(R_MEM) ==> j.locals[c.ra[R_MEM]] == J.MemoryRef) &&
    Holds(j.memory, m.mem, hid.words)
  }

  // ----- what an instruction may do with hidden values -----

  /** An instruction computes with values that both machines know; whole words and the registers they are loaded
      to and stored from may be hidden. */
  predicate OnKnown(c: Context, insn: Insn, m: State, hid: Hidden) {
    match insn
    case Alu(_, rs, rt, _) => Known(hid, rs) && Known(hid, rt)
    case Shift(_, rt, _, _) => Known(hid, rt)
    case Imm(_, rs, _, _) => Known(hid, rs)
    case Load(op, rs, _, offset) =>
      SkipsRa(c, insn) || (Known(hid, rs) && (op == Lw || m.Address(rs, offset) / 4 !in hid.words))
    case Store(op, rs, rt, _) => SkipsRa(c, insn) || (Known(hid, rs) && (op == Sw || Known(hid, rt)))
    case MulDiv(_, rs, rt) => Known(hid, rs) && Known(hid, rt)
    case Mfhi(_) => Known(hid, R_HI)
    case Mflo(_) => Known(hid, R_LO)
    case _ => true
  }

  predicate Allowed(c: Context, insn: Insn, m: State, hid: Hidden) {
    AccessOk(c, insn, m, {}) && OnKnown(c, insn, m, hid)
  }

  /** What is hidden after an instruction: a word that a hidden register was stored to, and a register that a hidden
      word was loaded to; a dropped store of `$ra` hides its word. */
  function HiddenAfter(c: Context, insn: Insn, m: State, hid: Hidden): Hidden {
    match insn
    case Alu(_, _, _, rd) => Without(hid, {rd})
    case Shift(_, _, rd, _) => Without(hid, {rd})
    case Imm(_, _, rt, _) => Without(hid, {rt})
    case Lui(rt, _) => Without(hid, {rt})
    case Load(op, rs, rt, offset) =>
      if SkipsRa(c, insn) then hid
      else if op == Lw && m.Address(rs, offset) / 4 in hid.words then hid.(regs := hid.regs + {rt})
      else Without(hid, {rt})
    case Store(op, rs, rt, offset) =>
      var w: nat := m.Address(rs, offset) / 4;
      if SkipsRa(c, insn) || (op == Sw && !Known(hid, rt)) then hid.(words := hid.words + {w})
      else if op == Sw then hid.(words := hid.words - {w})
      else hid
    case MulDiv(_, _, _) => Without(hid, {R_HI, R_LO})
    case Mfhi(rd) => Without(hid, {rd})
    case Mflo(rd) => Without(hid, {rd})
    case _ => hid
  }

  function Without(hid: Hidden, regs: set<nat>): Hidden {
    hid.(regs := hid.regs - regs)
  }

  // ----- the machine as the Java side sees it -----

  /** Two MIPS states that differ only in what is hidden. */
  ghost predicate Agree(hid: Hidden, m: State, z: State) {
    AgreeRegs(hid, m.regs, z.regs) && AgreeOutside(hid.words, m.mem, z.mem)
  }

  ghost predicate AgreeRegs(hid: Hidden, m: RegisterFile, z: RegisterFile) {
    forall r :: 1 <= r < 34 && Known(hid, r) ==> m[r] == z[r]
  }

  ghost predicate AgreeOutside(words: set<nat>, m: seq<Byte>, z: seq<Byte>) {
    |m| == |z| && forall a: nat :: a < |m| && a / 4 !in words ==> m[a] == z[a]
  }

  /** The registers as the locals hold them, and the memory as it is. */
  function ViewRegs(c: Context, m: State, j: J.State): RegisterFile {
    seq(34, r requires 0 <= r < 34 =>
      if Visible(c, r) && 0 <= c.ra[r] < |j.locals| && j.locals[c.ra[r]].Int? then j.locals[c.ra[r]].w else m.regs[r])
  }

  function View(c: Context, m: State, j: J.State): State {
    State(ViewRegs(c, m, j), Bytes(j.memory))
  }

  lemma ViewSeen(c: Context, hid: Hidden, m: State, j: J.State)
    requires Seen(c, hid, m, j)
    ensures Related(c, {}, View(c, m, j), j) && Agree(hid, m, View(c, m, j))
  {
    HoldsIffBytes(j.memory, Bytes(j.memory));
    HeldOutside(j.memory, m.mem, hid.words);
    hide Bytes, Holds, AgreeOutside;
  }

  lemma HeldOutside(words: seq<Word>, bytes: seq<Byte>, hidden: set<nat>)
    requires Holds(words, bytes, hidden)
    ensures AgreeOutside(hidden, bytes, Bytes(words))
  {
    hide Holds;
    HeldLength(words, bytes, hidden);
    forall a: nat | a < |bytes| && a / 4 !in hidden ensures bytes[a] == Bytes(words)[a] {
      HeldByte(words, bytes, hidden, a);
    }
  }

  lemma HeldLength(words: seq<Word>, bytes: seq<Byte>, hidden: set<nat>)
    requires Holds(words, bytes, hidden)
    ensures |bytes| == 4 * |words|
  {}

  lemma HeldBy(words: seq<Word>, m: seq<Byte>, z: seq<Byte>, own: set<nat>, hidden: set<nat>)
    requires Holds(words, z, own) && AgreeOutside(hidden, m, z)
    ensures Holds(words, m, own + hidden)
  {
    forall i: nat | i < |words| && i !in own + hidden
      ensures words[i] == Join(m[4 * i], m[4 * i + 1], m[4 * i + 2], m[4 * i + 3])
    {
      WordIndex(i);
    }
  }

  lemma SeenFrom(c: Context, hid: Hidden, m: State, z: State, j: J.State)
    requires Related(c, {}, z, j) && Agree(hid, m, z)
    ensures Seen(c, hid, m, j)
  {
    HeldBy(j.memory, m.mem, z.mem, {}, hid.words);
    assert {} + hid.words == hid.words;
    hide Holds, AgreeOutside;
  }

  // ----- the two MIPS states keep agreeing -----

  lemma AgreeReg(hid: Hidden, m: State, z: State, r: nat)
    requires Agree(hid, m, z) && r < 34 && Known(hid, r)
    ensures m.Reg(r) == z.Reg(r)
  {
    hide AgreeOutside;
  }

  lemma AgreeSet(hid: Hidden, m: State, z: State, r: nat, v: Word)
    requires Agree(hid, m, z) && r < 34
    ensures Agree(Without(hid, {r}), m.Set(r, v), z.Set(r, v))
  {
    hide AgreeOutside;
  }

  lemma AgreeHide(hid: Hidden, m: State, z: State, r: nat, v: Word, w: Word)
    requires Agree(hid, m, z) && r < 34
    ensures Agree(hid.(regs := hid.regs + {r}), m.Set(r, v), z.Set(r, w))
  {
    hide AgreeOutside;
  }

  lemma AgreeTwo(hid: Hidden, m: State, z: State, hi: Word, lo: Word)
    requires Agree(hid, m, z)
    ensures Agree(Without(hid, {R_HI, R_LO}), m.Set(R_HI, hi).Set(R_LO, lo), z.Set(R_HI, hi).Set(R_LO, lo))
  {
    hide AgreeOutside;
  }

  lemma SameLoad(op: LoadOp, hidden: set<nat>, m: seq<Byte>, z: seq<Byte>, a: Word)
    requires AgreeOutside(hidden, m, z)
    ensures LoadResult(op, m, a).Some? <==> LoadResult(op, z, a).Some?
    ensures a / 4 !in hidden ==> LoadResult(op, m, a) == LoadResult(op, z, a)
  {
    SameWordAs(a);
    hide Join, Short, SignExtend8, SignExtend16;
  }

  lemma SameStore(op: StoreOp, hidden: set<nat>, m: seq<Byte>, z: seq<Byte>, a: Word, v: Word, w: Word)
    requires AgreeOutside(hidden, m, z) && StoreResult(op, m, a, v).Some?
    ensures StoreResult(op, z, a, w).Some?
    ensures AgreeOutside(hidden + {a / 4}, StoreResult(op, m, a, v).value, StoreResult(op, z, a, w).value)
    ensures v == w ==> AgreeOutside(hidden, StoreResult(op, m, a, v).value, StoreResult(op, z, a, w).value)
    ensures v == w && op == Sw ==>
              AgreeOutside(hidden - {a / 4}, StoreResult(op, m, a, v).value, StoreResult(op, z, a, w).value)
  {
    SameDomain(op, m, z, a, v, w);
    var m', z' := StoreResult(op, m, a, v).value, StoreResult(op, z, a, w).value;
    OnlyItsWord(m, m', op, a, v);
    OnlyItsWord(z, z', op, a, w);
    forall i: nat | i < |m'| && i / 4 !in hidden + {a / 4} ensures m'[i] == z'[i] {
      assert m'[i] == m[i] && z'[i] == z[i];
    }
    if v == w {
      SameBytesStored(op, hidden, m, z, a, v);
    }
  }

  lemma SameDomain(op: StoreOp, m: seq<Byte>, z: seq<Byte>, a: Word, v: Word, w: Word)
    requires |m| == |z| && StoreResult(op, m, a, v).Some?
    ensures StoreResult(op, z, a, w).Some?
  {
    hide ByteOf;
  }

  lemma SameBytesStored(op: StoreOp, hidden: set<nat>, m: seq<Byte>, z: seq<Byte>, a: Word, v: Word)
    requires AgreeOutside(hidden, m, z) && StoreResult(op, m, a, v).Some? && StoreResult(op, z, a, v).Some?
    ensures AgreeOutside(hidden, StoreResult(op, m, a, v).value, StoreResult(op, z, a, v).value)
    ensures op == Sw ==> AgreeOutside(hidden - {a / 4}, StoreResult(op, m, a, v).value, StoreResult(op, z, a, v).value)
  {
    hide ByteOf;
    match op
    case Sw =>
      var m', z' := StoreResult(op, m, a, v).value, StoreResult(op, z, a, v).value;
      forall i: nat | i < |m'| && i / 4 !in hidden - {a / 4} ensures m'[i] == z'[i] {
        InItsWord(a, i);
      }
    case Sb =>
    case Sh =>
  }

  lemma InItsWord(a: nat, i: nat)
    requires a % 4 == 0
    ensures i / 4 == a / 4 <==> i in {a, a + 1, a + 2, a + 3}
  {}

  /** An instruction on known values does the same to both. */
  lemma AgreeStep(c: Context, hid: Hidden, m: State, z: State, insn: Insn, m': State)
    requires Agree(hid, m, z) && OnKnown(c, insn, m, hid) && !insn.IsBranch() && !SkipsRa(c, insn)
    requires Execute(insn, m) == Some(m')
    ensures Execute(insn, z).Some? && Agree(HiddenAfter(c, insn, m, hid), m', Execute(insn, z).value)
  {
    hide Agree, AluResult, ShiftResult, ImmResult, MulDivResult, LoadResult, StoreResult, Without;
    match insn
    case Nop =>
    case Alu(op, rs, rt, rd) =>
      AgreeReg(hid, m, z, rs);
      AgreeReg(hid, m, z, rt);
      AgreeSet(hid, m, z, rd, AluResult(op, m.Reg(rs), m.Reg(rt)).value);
    case Shift(op, rt, rd, amount) =>
      AgreeReg(hid, m, z, rt);
      AgreeSet(hid, m, z, rd, ShiftResult(op, m.Reg(rt), amount));
    case Imm(op, rs, rt, imm) =>
      AgreeReg(hid, m, z, rs);
      AgreeSet(hid, m, z, rt, ImmResult(op, m.Reg(rs), imm).value);
    case Lui(rt, high) => AgreeSet(hid, m, z, rt, Wrap(high * 0x1_0000));
    case Load(op, rs, rt, offset) => AgreeLoad(c, hid, m, z, op, rs, rt, offset);
    case Store(op, rs, rt, offset) => AgreeStore(c, hid, m, z, op, rs, rt, offset);
    case MulDiv(op, rs, rt) =>
      AgreeReg(hid, m, z, rs);
      AgreeReg(hid, m, z, rt);
      var r := MulDivResult(op, m.Reg(rs), m.Reg(rt)).value;
      AgreeTwo(hid, m, z, r.0, r.1);
    case Mfhi(rd) =>
      AgreeReg(hid, m, z, R_HI);
      AgreeSet(hid, m, z, rd, m.Reg(R_HI));
    case Mflo(rd) =>
      AgreeReg(hid, m, z, R_LO);
      AgreeSet(hid, m, z, rd, m.Reg(R_LO));
  }

  lemma AgreeMemory(hid: Hidden, m: State, z: State)
    requires Agree(hid, m, z)
    ensures AgreeOutside(hid.words, m.mem, z.mem)
  {}

  lemma AgreeLoad(c: Context, hid: Hidden, m: State, z: State, op: LoadOp, rs: Field, rt: Field, offset: Immediate)
    requires var insn := Load(op, rs, rt, offset);
             Agree(hid, m, z) && OnKnown(c, insn, m, hid) && !SkipsRa(c, insn) && Execute(insn, m).Some?
    ensures var insn := Load(op, rs, rt, offset);
            Execute(insn, z).Some? && Agree(HiddenAfter(c, insn, m, hid), Execute(insn, m).value, Execute(insn, z).value)
  {
    hide Agree, LoadResult, Without, AgreeOutside;
    AgreeReg(hid, m, z, rs);
    AgreeMemory(hid, m, z);
    var a := m.Address(rs, offset);
    SameLoad(op, hid.words, m.mem, z.mem, a);
    if op == Lw && a / 4 in hid.words {
      AgreeHide(hid, m, z, rt, LoadResult(op, m.mem, a).value, LoadResult(op, z.mem, a).value);
    } else {
      AgreeSet(hid, m, z, rt, LoadResult(op, m.mem, a).value);
    }
  }

  lemma AgreeStore(c: Context, hid: Hidden, m: State, z: State, op: StoreOp, rs: Field, rt: Field, offset: Immediate)
    requires var insn := Store(op, rs, rt, offset);
             Agree(hid, m, z) && OnKnown(c, insn, m, hid) && !SkipsRa(c, insn) && Execute(insn, m).Some?
    ensures var insn := Store(op, rs, rt, offset);
            Execute(insn, z).Some? && Agree(HiddenAfter(c, insn, m, hid), Execute(insn, m).value, Execute(insn, z).value)
  {
    hide StoreResult, AgreeOutside;
    AgreeReg(hid, m, z, rs);
    if Known(hid, rt) {
      AgreeReg(hid, m, z, rt);
    }
    SameStore(op, hid.words, m.mem, z.mem, m.Address(rs, offset), m.Reg(rt), z.Reg(rt));
  }

  // ----- the instruction theorem, apart from what is hidden -----

  /** `code` takes the Java machine to one that is related to the MIPS state apart from what is hidden. */
  ghost predicate Follows(c: Context, code: seq<J.Bytecode>, j: J.State, m': State, hid': Hidden) {
    var end := J.Run(code, j);
    end.Some? && end.value.stack == j.stack && Seen(c, hid', m', end.value)
  }

  /** Every supported instruction on known values is translated faithfully, whatever the hidden ones are. */
  lemma InsnFollows(c: Context, hid: Hidden, m: State, j: J.State, insn: Insn, m': State)
    requires ValidContext(c) && Seen(c, hid, m, j)
    requires Encodable(insn) && Supported(c, insn) && Covers(c, insn) && Allowed(c, insn, m, hid)
    requires Execute(insn, m) == Some(m')
    ensures Follows(c, Code(c, insn), j, m', HiddenAfter(c, insn, m, hid))
  {
    if SkipsRa(c, insn) {
      SkippedFollows(c, hid, m, j, insn, m');
    } else {
      AllowedView(c, hid, m, j, insn);
      assert !insn.IsBranch();
      hide *;
      var z := View(c, m, j);
      ViewSeen(c, hid, m, j);
      AgreeStep(c, hid, m, z, insn, m') by { OnKnownOf(c, insn, m, hid); }
      var z' := Execute(insn, z).value;
      InsnCorrect(c, {}, z, j, insn, z');
      FollowsFrom(c, Code(c, insn), j, m', z', HiddenAfter(c, insn, m, hid));
    }
  }

  lemma OnKnownOf(c: Context, insn: Insn, m: State, hid: Hidden)
    requires Allowed(c, insn, m, hid)
    ensures OnKnown(c, insn, m, hid)
  {}

  /** The accesses and their addresses are the same from the Java side. */
  lemma AllowedView(c: Context, hid: Hidden, m: State, j: J.State, insn: Insn)
    requires Seen(c, hid, m, j) && Allowed(c, insn, m, hid) && !SkipsRa(c, insn)
    ensures var z := View(c, m, j); AccessOk(c, insn, z, {}) && Apart(c, insn, z, {}) == {}
  {
    ViewSeen(c, hid, m, j);
    hide Seen, View, Related, Agree;
    var z := View(c, m, j);
    match insn
    case Load(_, rs, _, _) => AgreeReg(hid, m, z, rs);
    case Store(_, rs, _, _) => AgreeReg(hid, m, z, rs);
    case _ =>
  }

  lemma FollowsFrom(c: Context, code: seq<J.Bytecode>, j: J.State, m': State, z': State, hid': Hidden)
    requires Simulates(c, code, j, z', {}) && Agree(hid', m', z')
    ensures Follows(c, code, j, m', hid')
  {
    hide Related, Agree, Seen, J.Run;
    SeenFrom(c, hid', m', z', J.Run(code, j).value);
  }

  /** A dropped load or store of `$ra`. */
  lemma SkippedFollows(c: Context, hid: Hidden, m: State, j: J.State, insn: Insn, m': State)
    requires Seen(c, hid, m, j) && SkipsRa(c, insn) && !insn.IsBranch() && Execute(insn, m) == Some(m')
    ensures Follows(c, Code(c, insn), j, m', HiddenAfter(c, insn, m, hid))
  {
    assert Code(c, insn) == [] && J.Run([], j) == Some(j);
    match insn
    case Load(op, rs, rt, offset) =>
      hide Holds;
    case Store(op, rs, rt, offset) =>
      SetApart(j.memory, m.mem, m'.mem, hid.words, op, m.Address(rs, offset), m.Reg(rt));
      hide Holds, StoreResult;
  }

  // ----- registers on the operand stack -----

  /** A register's local, pushed: the register's value, unless it is hidden. */
  lemma SeenPush(c: Context, hid: Hidden, m: State, j: J.State, r: Register, s: J.Stack) returns (v: Word)
    requires ValidContext(c) && Seen(c, hid, m, j) && Readable(c, r) && r < 34
    ensures Runs([PushRegister(c, r)], Stk(j, s), Stk(j, I(v, s))) && (Known(hid, r) ==> v == m.Reg(r))
  {
    hide *;
    ViewSeen(c, hid, m, j);
    var z := View(c, m, j);
    PushRuns(c, {}, z, j, r, s);
    v := z.Reg(r);
    if Known(hid, r) {
      AgreeReg(hid, m, z, r);
    }
  }

  lemma SeenAnyStack(c: Context, hid: Hidden, m: State, st: J.State, s: J.Stack)
    requires Seen(c, hid, m, st)
    ensures Seen(c, hid, m, Stk(st, s)) && Stk(st, s).stack == s
  {
    hide Holds;
  }

  /** A register without a visible local may change on the MIPS side alone. */
  lemma SeenUnseen(c: Context, hid: Hidden, m: State, j: J.State, r: nat, v: Word)
    requires Seen(c, hid, m, j) && r < 34 && !Visible(c, r)
    ensures Seen(c, hid, m.Set(r, v), j)
  {
    hide Holds;
  }

  /** A value popped into a register's local: known if it is the register's. */
  lemma SeenPop(c: Context, hid: Hidden, m: State, st: J.State, r: Register, v: Word, s: J.Stack) returns (end: J.State)
    requires ValidContext(c) && Seen(c, hid, m, st) && 1 <= r < 34 && c.Allocated(r) && st.stack == I(v, s)
    ensures Runs(PopRegister(c, r), st, end) && end.stack == s
    ensures !Known(hid, r) ==> Seen(c, hid, m, end)
    ensures v == m.regs[r] ==> Seen(c, Without(hid, {r}), m, end)
  {
    end := J.State(s, st.locals[c.ra[r] := J.Int(v)], st.memory);
    Run1(J.Istore(c.ra[r]), st, end);
    hide Holds, J.Run, J.Step;
  }

  lemma SeenHolds(c: Context, hid: Hidden, m: State, st: J.State)
    requires Seen(c, hid, m, st)
    ensures Holds(st.memory, m.mem, hid.words)
  {}

  /** A prologue that saves a register whose value is hidden, and the epilogue that restores it: both are allowed,
      the MIPS register has its value again, and it is still hidden. */
  lemma SpillAndRestore(c: Context, hid: Hidden, m: State, base: Field, r: Field, offset: Immediate)
    requires Known(hid, base) && !Known(hid, r) && base != r && r != R_RA && Unwrapped(m.Reg(base), offset)
    requires Execute(Store(Sw, base, r, offset), m).Some?
    ensures var spill, restore := Store(Sw, base, r, offset), Load(Lw, base, r, offset);
            var m1, hid1 := Execute(spill, m).value, HiddenAfter(c, spill, m, hid);
            Allowed(c, spill, m, hid) && Allowed(c, restore, m1, hid1) && Execute(restore, m1) == Some(m1) &&
            HiddenAfter(c, restore, m1, hid1) == hid.(words := hid.words + {m.Address(base, offset) / 4})
  {
    var a := m.Address(base, offset);
    JoinBytes(m.Reg(r));
    hide ByteOf, Join, Wrap;
    var m1 := Execute(Store(Sw, base, r, offset), m).value;
    assert m1.Address(base, offset) == a;
    assert LoadResult(Lw, m1.mem, a) == Some(m.Reg(r));
    assert m1.regs[r := m.Reg(r)] == m1.regs;
  }
}
