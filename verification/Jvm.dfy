/** The target machine: the stack instructions that the translator emits, with the operand stack, the local
    variables and the runtime's `int[]` memory (section 6.5 of The Java Virtual Machine Specification).
    `None` is a thrown exception or code the bytecode verifier would refuse. */
module Jvm {
  import opened Words
  import opened Options
  import CRunTime

  datatype Value = Int(w: Word) | Long(l: Long) | MemoryRef | ReturnAddress

  /** The operand stack, top first. */
  datatype Stack = Empty | On(top: Value, below: Stack)

  datatype Label =
    | AtAddress(address: Word)
    | PastSlot(slot: Word)
    | JumpTable
    | FunctionReturn

  /** The CRunTime reads and writes, by what they transfer. */
  datatype ReadKind = ReadByte | ReadByteUnsigned | ReadShort | ReadShortUnsigned | ReadWordLeft
  datatype WriteKind = WriteByte | WriteShort | WriteWordLeft

  datatype RuntimeCall = MemoryRead(read: ReadKind) | MemoryWrite(write: WriteKind) | CallDivu | CallMultu

  datatype IfOp = IfEq | IfNe | IfGe | IfGt | IfLe | IfLt | IfIcmpEq | IfIcmpNe

  datatype Bytecode =
    // constants
    | Iconst(v: Word) | Bipush(v: Word) | Sipush(v: Word) | Ldc(v: Word) | Ldc2(l: Long)
    // locals
    | Iload(n: int) | Istore(n: int) | Aload(n: int) | Astore(n: int) | Iinc(n: int, k: int)
    // stack
    | Dup | Dup2 | DupX2 | Swap | Pop
    // int arithmetic
    | Iadd | Isub | Imul | Idiv | Irem | Ineg | Iand | Ior | Ixor | Ishl | Ishr | Iushr
    // conversions and longs
    | I2l | L2i | I2b | I2c | I2s | Land | Lmul | Lushr | Lcmp
    // memory
    | Iaload | Iastore
    | Invoke(call: RuntimeCall)
    | Ret
    // control
    | LabelAt(name: Label) | Goto(name: Label) | If(op: IfOp, name: Label) | LookupSwitch(table: seq<Word>)
    | InvokeMethod(target: Word, arity: nat, returnsInt: bool) | InvokeTable
    | GetMemory | GetSavedV1 | PutSavedV1 | Ireturn | Return
  {
    /** The instructions that `Step` leaves to a whole method's machine. */
    predicate IsControl() {
      LabelAt? || Goto? || If? || LookupSwitch? || InvokeMethod? || InvokeTable? ||
      GetMemory? || GetSavedV1? || PutSavedV1? || Ireturn? || Return?
    }
  }

  datatype State = State(stack: Stack, locals: seq<Value>, memory: CRunTime.Memory)
  {
    function Push(v: Value): State {
      this.(stack := On(v, stack))
    }

    /** The ints on top of the stack. */
    predicate HasInt() {
      stack.On? && stack.top.Int?
    }

    predicate HasInts() {
      HasInt() && stack.below.On? && stack.below.top.Int?
    }

    predicate HasLongs() {
      stack.On? && stack.top.Long? && stack.below.On? && stack.below.top.Long?
    }
  }

  function BinaryInt(op: Bytecode, a: Word, b: Word): Option<Word> {
    match op
    case Iadd => Some(Wrap(a + b))
    case Isub => Some(Wrap(a - b))
    case Imul => Some(Wrap(Signed(a) * Signed(b)))
    case Idiv => if b == 0 then None else Some(Wrap(TruncDiv(Signed(a), Signed(b))))
    case Irem => if b == 0 then None else Some(Wrap(TruncMod(Signed(a), Signed(b))))
    case Iand => Some(WordAnd(a, b))
    case Ior => Some(WordOr(a, b))
    case Ixor => Some(WordXor(a, b))
    case Ishl => Some(ShiftLeft(a, b % 32))
    case Ishr => Some(ShiftRightArith(a, b % 32))
    case Iushr => Some(ShiftRightLogical(a, b % 32))
    case _ => None
  }

  function UnaryInt(op: Bytecode, a: Word): Option<Value> {
    match op
    case Ineg => Some(Int(Wrap(-Signed(a))))
    case I2l => Some(Long(Signed(a)))
    case I2b => Some(Int(SignExtend8(a)))
    case I2c => Some(Int(a % 0x1_0000))
    case I2s => Some(Int(SignExtend16(a)))
    case _ => None
  }

  function BinaryLong(op: Bytecode, a: Long, b: Long): Option<Value> {
    match op
    case Land => Some(Long(WrapLong(And(a % 0x1_0000_0000_0000_0000, b % 0x1_0000_0000_0000_0000))))
    case Lmul => Some(Long(WrapLong(a * b)))
    case Lcmp => Some(Int(if a < b then 0xFFFF_FFFF else if a == b then 0 else 1))
    case _ => None
  }

  function ReadMemory(kind: ReadKind, mem: CRunTime.Memory, a: Word): Option<Word> {
    match kind
    case ReadByte => CRunTime.MemoryReadByte(mem, a)
    case ReadByteUnsigned => CRunTime.MemoryReadByteUnsigned(mem, a)
    case ReadShort => CRunTime.MemoryReadShort(mem, a)
    case ReadShortUnsigned => CRunTime.MemoryReadShortUnsigned(mem, a)
    case ReadWordLeft => CRunTime.MemoryReadWordLeft(mem, a)
  }

  function WriteMemory(kind: WriteKind, mem: CRunTime.Memory, a: Word, v: Word): Option<CRunTime.Memory> {
    match kind
    case WriteByte => CRunTime.StoreByte(mem, a, v)
    case WriteShort => CRunTime.StoreShort(mem, a, v)
    case WriteWordLeft => CRunTime.StoreWordLeft(mem, a, v)
  }

  /** A call of one of the static CRunTime methods. */
  function CallRuntime(call: RuntimeCall, st: State): Option<State> {
    match call
    case MemoryRead(kind) =>
      if !st.HasInt() then None else
      var r := ReadMemory(kind, st.memory, st.stack.top.w);
      if r == None then None else Some(st.(stack := On(Int(r.value), st.stack.below)))
    case MemoryWrite(kind) =>
      if !st.HasInts() then None else
      var m := WriteMemory(kind, st.memory, st.stack.below.top.w, st.stack.top.w);
      if m == None then None else Some(st.(stack := st.stack.below.below, memory := m.value))
    case CallDivu =>
      if !st.HasInts() then None else
      var r := CRunTime.Divu(st.stack.below.top.w, st.stack.top.w);
      if r == None then None else Some(st.(stack := On(Long(r.value), st.stack.below.below)))
    case CallMultu =>
      if !st.HasInts() then None else
      Some(st.(stack := On(Long(CRunTime.Multu(st.stack.below.top.w, st.stack.top.w)), st.stack.below.below)))
  }

  /** One instruction that does not transfer control. */
  function Step(b: Bytecode, st: State): Option<State> {
    match b
    case Iconst(v) => if v <= 5 || v == 0xFFFF_FFFF then Some(st.Push(Int(v))) else None
    case Bipush(v) => Some(st.Push(Int(SignExtend8(v))))
    case Sipush(v) => Some(st.Push(Int(SignExtend16(v))))
    case Ldc(v) => Some(st.Push(Int(v)))
    case Ldc2(l) => Some(st.Push(Long(l)))
    case Iload(n) => if 0 <= n < |st.locals| && st.locals[n].Int? then Some(st.Push(st.locals[n])) else None
    case Aload(n) => if 0 <= n < |st.locals| && st.locals[n].MemoryRef? then Some(st.Push(st.locals[n])) else None
    case Istore(n) =>
      if 0 <= n < |st.locals| && st.HasInt()
      then Some(st.(stack := st.stack.below, locals := st.locals[n := st.stack.top])) else None
    case Astore(n) =>
      if 0 <= n < |st.locals| && st.stack.On? && (st.stack.top.MemoryRef? || st.stack.top.ReturnAddress?)
      then Some(st.(stack := st.stack.below, locals := st.locals[n := st.stack.top])) else None
    case Iinc(n, k) =>
      if 0 <= n < |st.locals| && st.locals[n].Int?
      then Some(st.(locals := st.locals[n := Int(Wrap(st.locals[n].w + k))])) else None
    case Dup => StackOp(b, st)
    case Dup2 => StackOp(b, st)
    case DupX2 => StackOp(b, st)
    case Swap => StackOp(b, st)
    case Pop => StackOp(b, st)
    case L2i => Narrow(b, st)
    case Lushr => Narrow(b, st)
    case Iaload => MemoryOp(b, st)
    case Iastore => MemoryOp(b, st)
    case Invoke(call) => CallRuntime(call, st)
    case Ineg => Unary(b, st)
    case I2l => Unary(b, st)
    case I2b => Unary(b, st)
    case I2c => Unary(b, st)
    case I2s => Unary(b, st)
    case Land => LongOp(b, st)
    case Lmul => LongOp(b, st)
    case Lcmp => LongOp(b, st)
    case _ => IntOp(b, st)
  }

  function StackOp(b: Bytecode, st: State): Option<State> {
    match b
    case Dup => if st.stack.On? && !st.stack.top.Long? then Some(st.Push(st.stack.top)) else None
    case Dup2 =>
      if !st.stack.On? then None
      else if st.stack.top.Long? then Some(st.Push(st.stack.top))
      else if st.stack.below.On? && !st.stack.below.top.Long? then Some(st.Push(st.stack.below.top).Push(st.stack.top))
      else None
    case DupX2 =>
      if st.stack.On? && st.stack.below.On? && st.stack.below.below.On? &&
         !st.stack.top.Long? && !st.stack.below.top.Long? && !st.stack.below.below.top.Long?
      then
        var s := st.stack;
        Some(st.(stack := On(s.top, On(s.below.top, On(s.below.below.top, On(s.top, s.below.below.below))))))
      else None
    case Swap =>
      if st.stack.On? && st.stack.below.On? && !st.stack.top.Long? && !st.stack.below.top.Long?
      then Some(st.(stack := On(st.stack.below.top, On(st.stack.top, st.stack.below.below)))) else None
    case Pop => if st.stack.On? && !st.stack.top.Long? then Some(st.(stack := st.stack.below)) else None
    case _ => None
  }

  /** A long becomes an int, or is shifted by one. */
  function Narrow(b: Bytecode, st: State): Option<State> {
    match b
    case L2i =>
      if st.stack.On? && st.stack.top.Long?
      then Some(st.(stack := On(Int(Wrap(st.stack.top.l)), st.stack.below))) else None
    case Lushr =>
      if st.HasInt() && st.stack.below.On? && st.stack.below.top.Long?
      then
        var v := st.stack.below.top.l % 0x1_0000_0000_0000_0000;
        Some(st.(stack := On(Long(WrapLong(Drop(v, st.stack.top.w % 64))), st.stack.below.below)))
      else None
    case _ => None
  }

  function MemoryOp(b: Bytecode, st: State): Option<State> {
    match b
    case Iaload =>
      if st.HasInt() && st.stack.below.On? && st.stack.below.top.MemoryRef? && 0 <= Signed(st.stack.top.w) < |st.memory|
      then Some(st.(stack := On(Int(st.memory[st.stack.top.w]), st.stack.below.below))) else None
    case Iastore =>
      if st.HasInts() && st.stack.below.below.On? && st.stack.below.below.top.MemoryRef? &&
         0 <= Signed(st.stack.below.top.w) < |st.memory|
      then
        Some(st.(stack := st.stack.below.below.below, memory := st.memory[st.stack.below.top.w := st.stack.top.w]))
      else None
    case _ => None
  }

  function Unary(b: Bytecode, st: State): Option<State> {
    if !st.HasInt() then None else
    var r := UnaryInt(b, st.stack.top.w);
    if r == None then None else Some(st.(stack := On(r.value, st.stack.below)))
  }

  function LongOp(b: Bytecode, st: State): Option<State> {
    if !st.HasLongs() then None else
    var r := BinaryLong(b, st.stack.below.top.l, st.stack.top.l);
    if r == None then None else Some(st.(stack := On(r.value, st.stack.below.below)))
  }

  function IntOp(b: Bytecode, st: State): Option<State> {
    if !st.HasInts() then None else
    var r := BinaryInt(b, st.stack.below.top.w, st.stack.top.w);
    if r == None then None else Some(st.(stack := On(Int(r.value), st.stack.below.below)))
  }

  /** A run of straight-line code. */
  function Run(code: seq<Bytecode>, st: State): Option<State> {
    if code == [] then Some(st) else
    var next := Step(code[0], st);
    if next == None then None else Run(code[1..], next.value)
  }

  /** Code runs one part after the other. */
  lemma {:induction false} RunAppend(c1: seq<Bytecode>, c2: seq<Bytecode>, st: State)
    ensures Run(c1 + c2, st) == (if Run(c1, st) == None then None else Run(c2, Run(c1, st).value))
  {
    if c1 == [] {
      assert c1 + c2 == c2;
    } else {
      assert (c1 + c2)[1..] == c1[1..] + c2;
      hide Step;
      if Step(c1[0], st).Some? {
        RunAppend(c1[1..], c2, Step(c1[0], st).value);
      }
    }
  }
}
