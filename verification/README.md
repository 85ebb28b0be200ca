# Cibyl in Dafny

Cibyl compiles C to MIPS I machine code, translates that code to Java bytecode, and ships the C runtime
that the result runs on. This project models the parts of it in which an error would be hardest to see, and
proves what each of them is for.

* **The translator** (`tools/translator`). `Mips` and `MipsMethod` are the reference machine: the integer
  instructions of the MIPS I instruction set over a big-endian byte memory, with branch delay slots and
  calls. `Jvm` and `JvmMethod` are the target machine: the emitted subset of the stack code of section 6.5
  of The Java Virtual Machine Specification, over local variables and the runtime's `int[]`. `Decode` turns
  words into instructions; `Emitter` and `MethodEmitter` are the passes that append bytecode;
  `RegisterAllocator` and `JavaMethod` choose locals and pass arguments. `Translation` and `MethodCode` say
  as functions what is emitted; `Correctness`, `HiddenValues` and `ControlFlow` prove that it simulates the MIPS
  code; `CodeLocals` compares it with the usage counters; `Variants` covers the other ways of translating partial and unaligned accesses; `CallTable` covers the
  table of function pointers.
* **The runtime** (`java/CRunTime.java`): memory access and copying in `CRunTime`, object handles in
  `ObjectRepository`. `Words` and `BigEndian` give the arithmetic meaning of its masks and shifts; `WordMeanings`
  says digit by digit what the operations are that both machines share.
* **The C library** (`libs/src`): the allocator (`Smalloc`), calendar time (`Calendar`), number printing and
  parsing (`Printf`), what format strings print (`Formats`), and predictive text (`S9`).
* **Polygon filling** (`Triangles`, `Polygon`) and the **tafl game** (`Playfield`, `Game`, `Ai`, `SearchWindows`).

Words are bounded integers with every wrap-around written out. A Java exception is a `None` or a `false`
result. Source objects that are updated in place are classes; each method's postcondition gives the whole new
state, mostly through a function of the old one about which the lemmas speak.

## How the translator's theorem is put together

`Correctness.InsnCorrect` says that the code of one instruction takes related machines to related machines.
`Correctness.BlockCorrect` lifts it to every straight-line list, and `ControlFlow.RunCorrect` to every
complete run of a method. `JavaMethod.MethodCorrect` starts from what a caller pushes: usage counting,
allocation, argument passing and register initialisation are those of the passes, whose methods
(`Emitter.Emit.Pass2`, `MethodEmitter.Translate`, `RegisterAllocator.Allocator.SetAllocation`,
`JavaMethod.Method.Compile`) are proved to produce exactly the code and the tables the theorem is about.

The relation leaves out what the translator leaves out on purpose. `$ra` has no local. HI is not computed
where the method never reads it. Registers that are not passed hold the caller's values on the MIPS side and
zero on the Java side. `HiddenValues` keeps track of such values: a method may store a hidden register as a
whole word and load it again, which hides the word and the register in turn; a callee may leave anything in the
registers it need not preserve; a dropped store of `$ra` hides its word. Everything else that an instruction,
a branch or a call uses must be known, and for a callee it is enough that what it does here does not depend on
what is hidden. A run counts when it keeps to this, its inline accesses do not wrap around the address space,
its indirect jumps go to the return address or into the jump table, and it does not reach an instruction that
is never emitted.

## Where the code differs from what it is meant to do

* A write to `$zero` pushes its value and never pops it; this is the only way in which an instruction that reads
  supported registers goes wrong (`Correctness.ZeroWriteLeavesValue`, `Correctness.InsnCorrectIff`).
* The word index is computed by adding after shifting, so an address that wraps around throws
  (`Correctness.WrappedIndexThrows`, `StraightLine.IndexIsAddressIff`).
* The runtime's writes divide an address by four, its reads shift it: the last three addresses of the address
  space write to word zero and cannot be read (`CRunTime.WriteIndexAgreesIff`).
* The last instruction of a function is never emitted. A delay slot is emitted with its branch; any other last
  instruction is lost, and the method does not depend on it (`MethodCode.LastInsnDropped`).
* `Mult` and `Div` set `using_lo = 0x123`, so LO counts as used in every method and the branch that computes
  only a remainder is never taken (tools/translator/instructions/muldiv.cc:24-38).
* Move generation stops at the throne, while a checked move may pass over it when it is empty
  (`Playfield.GeneratedIffAccepted`, `Playfield.ThroneCrossingNotGenerated`).
* The call table's split into classes loses functions unless the number of classes divides their number
  (`CallTable.ClassesCompleteIff`).
* `strtoll` in base zero without a `0x` prefix keeps only the last digit; on decimal digits it is right exactly
  when all others are zeros (`Printf.BaseZeroKeepsLastDigit`, `Printf.BaseZeroIsDecimalIff`).
* Alpha-beta starts `best_eval` from a value that a position can have, and a tie with it may be skipped. Within
  the window that the game uses, and with one king, this does no harm; `SearchWindows.SoundIff` says exactly on
  which boards it does none, and `SearchWindows.AlphaBetaWrong` gives a board on which it does.
* A left-adjusted number with a prefix is padded too far, `%#X` prints its prefix in lower case, a precision does not
  switch off the zero flag, and zero with precision zero is printed, none of which is as ISO C asks
  (`Printf.TextWidth`, `Formats.TextShows`).
* A point outside a triangle whose area overflows a Java int may be taken to lie inside
  (`Triangles.WithinBoundsIff`, `Triangles.OverflowMisjudges`).
* Iterating over the words of a key needs an empty entry behind them, which is missing exactly when the sequence
  spells eight of the added words (`S9.EntryTerminatedIff`, `S9.EightWordsUnterminated`).
* Growing the handle table leaves a second reference to the new object (`ObjectRepository.GrownDenotes`).

## Model

| member | source | states |
|---|---|---|
| JavaMethod.MethodCorrect | tools/translator/javamethod.cc:365-521 | For every complete run of a MIPS method, entered with the arguments its callers push and any values in the other registers, which it may save and restore but not compute with: usage counting, allocation, argument passing, initialisation, body and return together give a Java method that returns the same results and leaves the same memory, apart from words only MIPS code saved values to. |
| ControlFlow.RunCorrect | tools/translator/basicblock.cc:310-350 | Every complete run of a method (branches, delay slots, calls, tail calls, jump table) is followed by the emitted code from the corresponding place to its return, with the same results and memory. Callees may read and write memory; a callee must not depend on the values that are hidden from the Java side when it is called. |
| ControlFlow.SlotLands | tools/translator/basicblock.cc:319-345 | A delay slot reached through the jump table executes once and falls through to the instruction after it. |
| ControlFlow.IfLands | tools/translator/instructions/jfmt.cc:388-398 | A conditional branch reads its operands before its slot runs; the slot runs exactly once, taken or not, and control goes where the MIPS branch goes. |
| ControlFlow.BranchLands | tools/translator/instructions/jfmt.cc:59-76 | Every branch that is not a call, with its delay slot, takes related machines to related machines at the MIPS destination. |
| ControlFlow.TableLands | tools/translator/instructions/jfmt.cc:326-340 | An indirect jump whose register holds an address of the table goes to that address; the register is read before the slot runs. |
| ControlFlow.CallLands | tools/translator/instructions/jfmt.cc:130-208 | A call reads an indirect target before its slot runs, runs the slot, passes the argument registers as they are after it, and stores the results in the result registers. |
| ControlFlow.Agreed | tools/translator/instructions/jfmt.cc:130-208 | Callees that agree on every memory they are given agree wherever what the callee does here does not depend on hidden words and hidden arguments. |
| ControlFlow.MemoryReaderAgrees | tools/translator/instructions/jfmt.cc:130-208 | A callee whose result is read from memory agrees with its translation and is insensitive to every hidden word it does not read. |
| HiddenValues.InsnFollows | tools/translator/instructions/memory.cc:156-376 | Every supported instruction on known values is translated faithfully, whatever the hidden registers and words hold; whole words may carry hidden values to memory and back. |
| HiddenValues.AgreeStep | tools/translator/instructions/memory.cc:156-376 | Two MIPS states that differ only in hidden registers and words do the same with an instruction on known values and differ afterwards only in what is hidden then. |
| HiddenValues.SpillAndRestore | tools/translator/instructions/memory.cc:449-473 | A prologue may save a register whose value is hidden and the epilogue restore it: the MIPS register has its value again. |
| Correctness.BlockCorrect | tools/translator/basicblock.cc:310-350 | For every straight-line list of supported instructions and every state, the emitted code ends with the operand stack as it was, locals equal to the MIPS registers, and the same memory. |
| Correctness.InsnCorrect | tools/translator/instructions/rfmt.cc:26-132 | One instruction of any supported kind: its code runs without an exception, leaves the operand stack unchanged and simulates the MIPS instruction. |
| Correctness.AluCorrect | tools/translator/instructions/set.cc:21-94 | Three-register arithmetic, logic, variable shifts and both comparisons: the emitted sequence, the lcmp comparison included, leaves the MIPS result in the destination. |
| Correctness.ImmCorrect | tools/translator/instructions/ifmt.cc:27-77 | Immediate arithmetic, logic and comparisons, including the iinc form, compute what MIPS defines. |
| Correctness.LoadCorrect | tools/translator/instructions/memory.cc:156-264 | lw, lb, lbu, lh and lhu, inlined or through the runtime, load the big-endian value of the effective address. |
| Correctness.StoreCorrect | tools/translator/instructions/memory.cc:293-376 | sw, sb and sh, inlined or through the runtime, change exactly the bytes that MIPS changes. |
| Correctness.MulDivCorrect | tools/translator/instructions/muldiv.cc:84-160 | mult, multu, div and divu leave both halves of the result in HI and LO; only LO where the method never reads HI. |
| WordMeanings.BitwiseDigits | tools/translator/instruction.cc:151-158 | Each binary digit of a word conjunction, disjunction and exclusive disjunction is that operation on the digits. |
| WordMeanings.DigitsDetermine | tools/translator/instruction.cc:151-158 | Two numbers with the same binary digits are equal. |
| WordMeanings.ShiftDigits | tools/translator/instruction.cc:159-170 | Each binary digit of the three shifts is the digit so many places away, zero or the sign beyond the end. |
| WordMeanings.DivisionRounds | tools/translator/instructions/muldiv.cc:134-160 | Quotient and remainder make up the dividend, the remainder is smaller than the divisor and has the sign of the dividend. |
| WordMeanings.DivisionUnique | tools/translator/instructions/muldiv.cc:134-160 | No other quotient and remainder do. |
| Correctness.RuntimeStoreIsMerged | java/CRunTime.java:292-314 | The runtime byte and short writes have the effect of the inlined sb and sh. |
| Correctness.ZeroWriteLeavesValue | tools/translator/emit.cc:158-169 | For every instruction with a result for $zero: the value is pushed and not popped, so that the operand stack grows by one while MIPS changes nothing. |
| Correctness.InsnCorrectIff | tools/translator/emit.cc:158-169 | An instruction that reads supported registers is translated faithfully if and only if it has no result for $zero or is an encoding of a nop. |
| Correctness.WrappedIndexThrows | tools/translator/emit.cc:79-97 | A word offset that carries the address past either end of the address space gives an index outside every memory. |
| StraightLine.IndexIsAddressIff | tools/translator/emit.cc:79-97 | The emitted word index is the effective address divided by four if and only if the address does not wrap or the offset is not a multiple of four. |
| Emitter.Emit.Pass2 | tools/translator/instructions/rfmt.cc:26-34 | The instruction classes append exactly the bytecode that the theorems are about, for every non-branch instruction. |
| Emitter.Emit.PushConst | tools/translator/emit.cc:55-67 | The smallest push instruction that holds the constant. |
| Emitter.Emit.PushIndex | tools/translator/emit.cc:79-97 | The word index of base and offset; the offset is added after the shift when it is a multiple of four. |
| Emitter.Emit.Load | tools/translator/instructions/memory.cc:190-264 | The code of each load, inlined or a runtime call. |
| Emitter.Emit.Store | tools/translator/instructions/memory.cc:293-376 | The code of each store, inlined or a runtime call. |
| Emitter.Emit.MulDiv | tools/translator/instructions/muldiv.cc:84-160 | The code of the multiplications and divisions; the two results of a signed one only when HI is used. |
| Emitter.FillUsage | tools/translator/instructions/memory.cc:64-75 | The source and destination counters of an instruction rise for exactly the registers of its counting table. |
| Emitter.CountsTouched | tools/translator/instructions/muldiv.cc:111-123 | The counting table is what the destination and the source counters cover together, $zero left out. |
| CodeLocals.CodeMentions | tools/translator/instructions/memory.cc:64-75 | The code of every instruction mentions exactly the locals of the registers that are counted for it, apart from the memory reference of a runtime call and dropped accesses of $ra. |
| MethodEmitter.Pass0 | tools/translator/controller.cc:203-216 | Every instruction after a branch is attached to it, and a delay-slot nop stands in its place. |
| MethodEmitter.MarkTargets | tools/translator/instructions/jfmt.cc:362-386 | An object is marked as a branch target if and only if some branch or inner jump of the method leads to it. |
| MethodEmitter.SplitBlocks | tools/translator/function.cc:54-107 | The basic blocks tile the instructions that are emitted, in order and without a gap, whichever targets are marked. |
| MethodEmitter.Pass2.Insn | tools/translator/basicblock.cc:319-345 | One object emits its label, its code, and the second copy of a labelled slot. |
| MethodEmitter.Pass2.Branch | tools/translator/instructions/jfmt.cc:452-462 | Each kind of branch emits its operands, its slot and its jump in the order the theorems use. |
| MethodEmitter.Pass2.Blocks | tools/translator/basicblock.cc:310-350 | Emitting block by block emits the instructions in order, whatever the blocks are. |
| MethodEmitter.Pass2.EmitMethod | tools/translator/javamethod.cc:436-512 | The body is followed by the jump table and the return. |
| MethodEmitter.Translate | tools/translator/controller.cc:732-809 | All passes together output exactly the method that RunCorrect speaks of. |
| MethodCode.LastInsnDropped | tools/translator/function.cc:54-55 | A last instruction that is not a delay slot is never emitted: any other instruction in its place gives the same method. |
| MethodLayout.AddressPosition | tools/translator/basicblock.cc:319-325 | A label stands exactly at the code of its instruction, and nowhere before it. |
| MethodLayout.SlotPosition | tools/translator/basicblock.cc:330-345 | The label of a slot stands at its second copy and nowhere before it. |
| MethodLayout.PastPosition | tools/translator/basicblock.cc:330-345 | The label behind the second copy of a slot is the last instruction before the next code. |
| RegisterAllocator.Allocator.SetAllocation | tools/translator/registerallocator.cc:30-77 | The used argument registers in passing order, then the other used registers by falling use; each gets the local of its place. |
| RegisterAllocator.AllocationIsInjective | tools/translator/registerallocator.cc:30-77 | Used registers get distinct locals 0 to n-1, all others none. |
| JavaMethod.Method.Truncate | tools/translator/javamethod.cc:177-195 | The list keeps the stack pointer and the function number, and of $a0 to $a3 as many as there are arguments, or all when their number is not known. |
| JavaMethod.CutPasses | tools/translator/javamethod.cc:178-196 | Every list that is cut for the number of arguments makes callers pass the used ones of the stack pointer, the function number, and as many of $a0 to $a3 as there are arguments, in this order. |
| JavaMethod.PassesUsed | tools/translator/javamethod.cc:178-196 | An argument register is passed if and only if the method uses it and its argument exists, as far as their number is known. |
| JavaMethod.Method.GetNextRegisterToPass | tools/translator/javamethod.cc:531-542 | Iteration visits exactly the possible arguments that are used, in order, and then yields $zero. |
| JavaMethod.Method.RegistersToPass | tools/translator/javamethod.cc:113-146 | The registers a caller pushes, and as many parameters in the descriptor. |
| JavaMethod.Method.RegisterIsArgument | tools/translator/javamethod.cc:544-555 | True for exactly the registers of the truncated argument list. |
| JavaMethod.Method.SetReturnSize | tools/translator/javamethod.cc:148-218 | The number of results follows from the use of $v0 and $v1 unless the debug information knows it. |
| JavaMethod.Method.CountUsage | tools/translator/javamethod.cc:148-218 | A counter is positive if and only if some emitted instruction of the method needs the register. |
| JavaMethod.UsageCovers | tools/translator/javamethod.cc:148-218 | Counting and allocating give every instruction of the method a local for every register it needs. |
| JavaMethod.ArgumentsLand | tools/translator/instructions/jfmt.cc:157-172 | The i-th value a caller pushes lands in the local of the register it came from, for every usage and truncation. |
| JavaMethod.EntryCorrect | tools/translator/javamethod.cc:387-411 | From a frame with the pushed arguments, the initialisation code gives every other used register its start value and relates the frame to the MIPS state, apart from the registers whose values are not passed. |
| JavaMethod.AnyStart | tools/translator/javamethod.cc:387-411 | Any MIPS state whose passed registers hold the arguments may be entered with, the other registers being hidden. |
| JavaMethod.Method.InitRegisters | tools/translator/javamethod.cc:387-411 | The loop appends the initialisation of exactly the used registers that are no arguments, in register order. |
| JavaMethod.Method.Compile | tools/translator/javamethod.cc:148-521 | All passes of a method: which argument registers are kept and passed, in which order, the counters, the locals, the initialisation and the code. |
| Decode.DecodesEncoded | tools/translator/instruction.cc:68-306 | Decoding undoes the encoding of every instruction of the reference machine. |
| Decode.DecodedIsEncodable | tools/translator/instruction.cc:68-306 | Whatever is decoded lies in the operand ranges that the translation theorem asks for. |
| Variants.SubroutineCorrect | tools/translator/javamethod.cc:265-325 | The load subroutine, entered with the return address and the address on the stack, leaves the loaded value and changes no register. |
| Variants.LoadVariantsAgree | tools/translator/instructions/memory.cc:190-264 | lb, lbu, lh and lhu give the same value inlined, through the runtime, and by subroutine. |
| Variants.PairLoads | tools/translator/instruction.cc:196-203 | lwl and lwr of neighbouring addresses, in either order, load the four bytes whatever the register held. |
| Variants.PairStores | tools/translator/instruction.cc:196-203 | swl and swr of neighbouring addresses, in either order, store the four bytes of the register. |
| Variants.PairLoadCorrect | tools/translator/instructions/memory.cc:50-62 | The single runtime access emitted for an lwl/lwr pair loads what the pair loads. |
| Variants.PairStoreCorrect | tools/translator/instructions/memory.cc:95-105 | The single runtime access emitted for an swl/swr pair stores what the pair stores. |
| CRunTime.MemoryReadByteUnsigned | java/CRunTime.java:362-369 | The byte at the address; an exception exactly when it is outside the memory. |
| CRunTime.MemoryReadByte | java/CRunTime.java:371-382 | The sign-extended byte at the address. |
| CRunTime.MemoryReadShortUnsigned | java/CRunTime.java:384-390 | The big-endian half-word that contains the address. |
| CRunTime.MemoryReadShort | java/CRunTime.java:392-401 | The sign-extended half-word that contains the address. |
| CRunTime.MemoryReadLong | java/CRunTime.java:348-355 | The two words from the word boundary on, high word first; an exception exactly when one of them is outside. |
| CRunTime.UnalignedRead | java/CRunTime.java:446-454 | The four bytes from any address on, most significant first. |
| CRunTime.StoreByteMeaning | java/CRunTime.java:292-302 | A byte write in range changes its own byte and no other. |
| CRunTime.StoreShortMeaning | java/CRunTime.java:304-314 | A short write in range changes the two bytes of its half-word and no other. |
| CRunTime.StoreLongMeaning | java/CRunTime.java:321-325 | A long write is two big-endian word writes from the word boundary on. |
| CRunTime.LongRoundTrip | java/CRunTime.java:321-355 | A long that was written is read back. |
| CRunTime.UnalignedStore | java/CRunTime.java:456-462 | A word write at any address changes exactly its four bytes. |
| CRunTime.WriteIndexAgreesIff | java/CRunTime.java:292-319 | Writes and reads select the same word if and only if the address is not one of the last three; those write to word zero. |
| CRunTime.Runtime.MemoryWriteByte | java/CRunTime.java:292-302 | The in-place byte write. |
| CRunTime.Runtime.MemoryWriteShort | java/CRunTime.java:304-314 | The in-place short write. |
| CRunTime.Runtime.MemoryWriteWord | java/CRunTime.java:316-319 | The in-place word write. |
| CRunTime.Runtime.MemoryWriteLong | java/CRunTime.java:321-325 | The in-place long write. |
| CRunTime.Runtime.MemoryWriteWordLeft | java/CRunTime.java:456-462 | The in-place unaligned write, byte by byte. |
| CRunTime.Runtime.CopyIn | java/CRunTime.java:403-432 | The word-at-a-time copy into memory equals a byte-by-byte copy for every alignment and size, and changes nothing else. |
| CRunTime.Runtime.CopyOut | java/CRunTime.java:434-444 | The copy out of memory delivers the bytes of the range and changes nothing else. |
| CRunTime.Divu | java/CRunTime.java:475-497 | Unsigned quotient and remainder of any two words in the two halves of a long; an exception exactly for a zero divisor. |
| CRunTime.Multu | java/CRunTime.java:499-508 | Both halves of the unsigned 64-bit product. |
| ObjectRepository.Repository.RegisterObject | java/CRunTime.java:158-191 | A new handle is at least two and was not live; all live handles keep their objects, also when the table grows; null gets zero. |
| ObjectRepository.Repository.DeRegisterObject | java/CRunTime.java:193-202 | The handle alone stops being live, and its object is returned. |
| ObjectRepository.GrownDenotes | java/CRunTime.java:158-191 | Growing the table keeps every live handle denoting its object and every slot below the first free one filled, beside the stale second reference. |
| CallTable.Table.AddFunction | tools/translator/calltablemethod.cc:31-58 | The addresses stay strictly ascending; exactly the new address is added, once. |
| CallTable.GenerateHierarchy | tools/translator/calltablemethod.cc:149-191 | The address guards and the sub-tables that the hierarchy is made of; the last sub-table takes the rest. |
| CallTable.GenerateClasses | tools/translator/calltablemethod.cc:224-268 | The guards and sub-tables of the class split, all of one size. |
| CallTable.HierarchyComplete | tools/translator/calltablemethod.cc:149-191 | Every registered address is routed to a sub-table that has its case. |
| CallTable.PartsDisjoint | tools/translator/calltablemethod.cc:76-147 | No two sub-tables have a case in common. |
| CallTable.CalledIff | tools/translator/calltablemethod.cc:76-191 | A function can be called if and only if the sub-tables reach its place in the order. |
| CallTable.ClassesCompleteIff | tools/translator/calltablemethod.cc:224-268 | The class split keeps every function if and only if the number of classes divides the number of functions. |
| Smalloc.Heap.constructor | libs/src/libc/smalloc.c:358-371 | The pool is one available block. |
| Smalloc.Heap.Delete | libs/src/libc/smalloc.c:114-137 | Unlinks exactly the given block; the lists stay address-descending and the counts right. |
| Smalloc.Heap.InsertAvailable | libs/src/libc/smalloc.c:140-175 | Links a freed block, merged with the available neighbours below and above that touch it. |
| Smalloc.Heap.BestFit | libs/src/libc/smalloc.c:235-281 | Takes an available block of least size among those that fit, splits it when a header fits into the rest, and fails only when nothing fits. |
| Smalloc.Heap.Malloc | libs/src/libc/smalloc.c:285-303 | Keeps the whole heap invariant: both lists tile the pool, no two available blocks touch, sizes are aligned, totals are right. |
| Smalloc.Heap.Find | libs/src/libc/smalloc.c:178-190 | The allocated block of the pointer, or none. |
| Smalloc.Heap.Free | libs/src/libc/smalloc.c:305-331 | Frees exactly the block of the pointer, keeping the heap invariant; other pointers change nothing. |
| Smalloc.Heap.AllBlocksFreed | libs/src/libc/smalloc.c:140-175 | When nothing is allocated, the available list is one block of the original pool size. |
| Smalloc.TilesCover | libs/src/libc/smalloc.c:114-175 | Every address of the pool lies in exactly one block. |
| Smalloc.MergeTiles | libs/src/libc/smalloc.c:140-175 | Merging two touching blocks keeps the tiling. |
| Smalloc.SplitTiles | libs/src/libc/smalloc.c:252-277 | Splitting a block keeps the tiling. |
| Smalloc.FreedTiles | libs/src/libc/smalloc.c:140-175 | Freeing a block, with up to three blocks becoming one, keeps the tiling and the order. |
| Smalloc.FreedNotAdjacent | libs/src/libc/smalloc.c:140-175 | Freeing leaves no two available blocks adjacent. |
| Smalloc.AllFreed | libs/src/libc/smalloc.c:140-175 | A heap without allocated blocks is one available block. |
| Calendar.GuessYear | libs/src/libc/time.c:90-103 | The year loop ends for every day count, negative ones too, with the year that contains the day and the days left in it. |
| Calendar.GuessCloser | libs/src/libc/time.c:90-103 | Each guess gets closer to the year, though it may pass it in either direction. |
| Calendar.NextYear | libs/src/libc/time.c:33-56 | Days before a year grow by the length of the year and are zero for 1970. |
| Calendar.MonthLengths | libs/src/libc/time.c:38-50 | The lengths of the months, with the Gregorian rule for February. |
| Calendar.KnownTimes | libs/src/libc/time.c:60-125 | The dates of the first and the last 32-bit time, and the time and weekday of a leap day. |
| Calendar.Tm.Offtime | libs/src/libc/time.c:58-118 | The fields form a valid date and time that stands for the given seconds, with the right weekday and day of the year. |
| Calendar.Tm.Gmtime | libs/src/libc/time.c:121-126 | gmtime fills in the one valid date and time of the given seconds. |
| Calendar.TimeGmCounts | libs/src/libc/time.c:14-31 | timegm counts the seconds since the epoch, modulo the word size, for every valid date from year one on. |
| Calendar.TimegmOfGmtime | libs/src/libc/time.c:121-150 | timegm of what gmtime gives for any 32-bit time is that time. |
| Calendar.GmtimeOfTimegm | libs/src/libc/time.c:121-150 | gmtime of what timegm gives for a valid date within 32-bit time is that date. |
| Calendar.CivilUnique | libs/src/libc/time.c:58-118 | A number of seconds has one valid date and time. |
| Printf.PrintInteger | libs/src/libc/vsnprintf.c:223-314 | An integer conversion writes its text as far as it fits, for every flag, width and precision. |
| Printf.Vsnprintf | libs/src/libc/vsnprintf.c:38-314 | The output is the text of the format and its arguments, cut to the buffer; what that text is for every format, Formats.FormatShows says. |
| Formats.FormatShows | libs/src/libc/vsnprintf.c:101-459 | A format that is written with literal text, percent signs, directives (percent, flags, width, precision, length, conversion) and unknown directives prints each literal and unknown one as it is, a percent sign for two, and for each directive the next argument as Formats.TextShows says. |
| Formats.TextShows | libs/src/libc/vsnprintf.c:178-315 | A directive prints its number with sign, prefix, zeros and digits. With a minus flag the blanks are on the right; else with a zero flag there are none; else they are on the left. The size is the larger of the width, whose digits are read in base ten, and of what sign, prefix, precision and digits need; with a minus flag the prefix is not counted in the width. |
| Formats.ShowsUnique | libs/src/libc/vsnprintf.c:178-315 | These demands leave one text for each directive and number. |
| Formats.OutputUnique | libs/src/libc/vsnprintf.c:101-459 | Pieces and arguments determine the output. |
| Formats.NumeralUnique | libs/src/libc/vsnprintf.c:247-252 | A number has one numeral in each base and letter case. |
| Printf.DigitsValue | libs/src/libc/vsnprintf.c:245-252 | The digits printed for a number, read in the base, are the number. |
| Printf.DigitsNameNumber | libs/src/libc/vsnprintf.c:184-252 | The digits printed are the numeral of the number: in base two for b, eight for o, sixteen for x, X and p, with capital letters for X only, and ten for d, i and u; without leading zeros. |
| Printf.TextWidth | libs/src/libc/vsnprintf.c:254-314 | The length of a printed number, for every conversion: its own size or the width, and more only for a left-adjusted number with a prefix. |
| Printf.Strtoll | libs/src/libc/stdlib.c:16-67 | The loop computes the value and the end of the longest number after blanks, sign and prefix. |
| Printf.ParsesText | libs/src/libc/stdlib.c:16-67 | A number with blanks, sign and prefix before its digits, and anything behind them that is neither a digit nor an x, parses to its signed value. |
| Printf.SignedRoundTrip | libs/src/libc/stdlib.c:69-73 | strtol in base ten reads back what %d prints for every word, with any flags, width and precision. |
| Printf.UnsignedRoundTrip | libs/src/libc/stdlib.c:81-85 | strtoul reads back what %u, %x, %X and %p print, with any flags, width and precision. |
| Printf.PrintedIsRead | libs/src/libc/vsnprintf.c:178-221 | The formats %d and %x, through format reading, print what is read back. |
| Printf.BaseZeroKeepsLastDigit | libs/src/libc/stdlib.c:33-51 | For every run of hexadecimal digits without a 0x prefix, with blanks and sign: base zero reads the last digit only, and stops where the digits end. |
| Printf.BaseZeroIsDecimalIff | libs/src/libc/stdlib.c:33-51 | On decimal digits, base zero agrees with base ten if and only if all digits but the last are zeros. |
| Printf.BaseZeroWithPrefix | libs/src/libc/stdlib.c:33-37 | With a 0x prefix, base zero is base sixteen, whatever follows. |
| Printf.TwelveInBaseZero | libs/src/libc/stdlib.c:33-51 | The text 12 is 2 in base zero and 12 in base ten. |
| S9.GetKey | libs/src/libs9/s9.c:58-85 | The packed key of the word, or -1 when it has no spelling. |
| S9.Keypad | libs/src/libs9/s9.c:34-56 | A character has the key that bears it, 2 with abc to 9 with wxyz, in either case; every other character has none. |
| S9.GetKeyBySequence | libs/src/libs9/s9.c:87-110 | The packed key of the digit sequence, or -1 when it is not one. |
| S9.TypedSpells | libs/src/libs9/s9.c:58-110 | The digit sequence that is typed for a word has the packed key of the word. |
| S9.TypedFinds | libs/src/libs9/s9.c:216-264 | Every added word that can be spelled is among the words of what is typed for it. |
| S9.PackedInjective | libs/src/libs9/s9.c:58-110 | Sequences of one length with the same key are the same. |
| S9.PackedIsPositive | libs/src/libs9/s9.c:58-110 | Keys of up to 21 digits stay below 2 to the power 63. |
| S9.KeyAddWord | libs/src/libs9/s9.c:129-150 | A new word is appended; one that is listed already changes nothing, also when the array grows. |
| S9.WordlenAddWord | libs/src/libs9/s9.c:178-205 | The table of one word length keeps indexing the added words. |
| S9.Index.AddWord | libs/src/libs9/s9.c:216-233 | The index keeps representing the list of all added words. |
| S9.Index.LookupSequence | libs/src/libs9/s9.c:235-254 | The entry found lists exactly the added words that the sequence spells. |
| S9.Index.Words | libs/src/libs9/s9.c:235-264 | Lookup followed by iteration yields the words of the sequence in the order of first addition, and reads past the array exactly when there are eight of them. |
| S9.WordsForMeaning | libs/src/libs9/s9.c:216-264 | The words of a sequence are the distinct added words with that spelling. |
| S9.WordsForPrefix | libs/src/libs9/s9.c:216-264 | Adding more words keeps the words listed so far in their places. |
| S9.TerminatedIff | libs/src/libs9/s9.c:112-150 | An array of words lacks the empty entry that ends the iteration if and only if it holds eight words. |
| S9.EntryTerminatedIff | libs/src/libs9/s9.c:112-264 | For an index of the added words: the entry of a sequence lacks its end if and only if the sequence spells eight of them. |
| S9.EightWordsUnterminated | libs/src/libs9/s9.c:112-264 | Eight words that the sequence 22 spells: every index of them has an entry without an end. |
| Polygon.FillPolygon | syscalls/jmicropolygon/classes/PolygonGraphics.java:73-122 | Terminates for every polygon and draws n-2 triangles on its own points whose signed areas sum to its signed area. Each is cut at a left-most point of a polygon none of whose other points lies in it; where some do, the polygon is split along the chord to a left-most one of them. Lying in it is geometry wherever the areas are Java ints. |
| Polygon.FilledArea | syscalls/jmicropolygon/classes/PolygonGraphics.java:73-122 | The cross products of the triangles drawn sum to the shoelace sum of the polygon. |
| Polygon.CutWellFills | syscalls/jmicropolygon/classes/PolygonGraphics.java:73-122 | However it is tested what lies inside, triangles cut in this way fill the polygon. |
| Polygon.CutWellUnique | syscalls/jmicropolygon/classes/PolygonGraphics.java:73-122 | There is one way to cut a polygon like this. |
| Polygon.CutByGeometry | syscalls/jmicropolygon/classes/PolygonGraphics.java:87-104 | Where all areas fit, cutting by the test of the program is cutting by what the triangles hold. |
| Polygon.BoxPolygon | syscalls/jmicropolygon/classes/PolygonGraphics.java:87-104 | All areas fit for every polygon in a box of less than 2^31 pixels. |
| Triangles.WithinBoundsIff | syscalls/jmicropolygon/classes/GeomUtils.java:23-37 | Where the areas of the four triangles are Java ints, the test finds a point if and only if it is a convex combination of the corners, or lies in their rectangle when the corners are on one line; inner overflows do not matter. |
| Triangles.BoxFits | syscalls/jmicropolygon/classes/GeomUtils.java:131-141 | A triangle in a box of less than 2^31 pixels has an area that fits. |
| Triangles.OverflowMisjudges | syscalls/jmicropolygon/classes/GeomUtils.java:131-141 | A triangle and a point outside it that the test takes to lie inside, because an area overflows. |
| Polygon.LeastInternal | syscalls/jmicropolygon/classes/PolygonGraphics.java:86-104 | The first of the left-most points inside the candidate triangle, and none only if there is none; never a corner of the triangle. |
| Polygon.TrimEar | syscalls/jmicropolygon/classes/GeomUtils.java:90-111 | All points but the ear, in order. |
| Polygon.TrimConserves | syscalls/jmicropolygon/classes/GeomUtils.java:90-111 | The ear and the rest have the signed area of the polygon together. |
| Polygon.Split | syscalls/jmicropolygon/classes/GeomUtils.java:56-88 | The points from either end of the chord around to the other; both pieces have 3 to n-1 points. |
| Polygon.SplitLengths | syscalls/jmicropolygon/classes/GeomUtils.java:56-88 | A chord between points that are no neighbours leaves 3 to n-1 points on either side. |
| Polygon.SplitConserves | syscalls/jmicropolygon/classes/GeomUtils.java:56-88 | The two pieces have the signed area of the polygon together. |
| Polygon.IndexOfLeast | syscalls/jmicropolygon/classes/GeomUtils.java:113-129 | The first index of a least element. |
| Playfield.Field.CanMoveXY | examples/j2me/tafl-client/src/playfield.c:50-87 | Accepts exactly the orthogonal moves over empty squares that the rules on corners and the throne allow. |
| Playfield.Field.DoMoveXY | examples/j2me/tafl-client/src/playfield.c:95-128 | The board with the piece moved and the pieces closed in by it removed; Playfield.FoeTakenIff and Playfield.FriendsStay say which these are. |
| Playfield.Field.GeneratePossibleMoves | examples/j2me/tafl-client/src/playfield.c:130-157 | In each direction, the moves up to the first that is refused. |
| Playfield.CapturesAt | examples/j2me/tafl-client/src/playfield.c:105-127 | Capturing direction by direction takes exactly the pieces that were closed in when the move was made. |
| Playfield.MovedAt | examples/j2me/tafl-client/src/playfield.c:95-128 | A move changes its two squares and the captured neighbours of its destination, nothing else. |
| Playfield.FoeTakenIff | examples/j2me/tafl-client/src/playfield.c:95-128 | An accepted move takes a piece of the other side if and only if it is beside the destination and the square beyond, in line, holds a piece of the mover's side other than the one that moved, is a corner, or is the throne, empty or left by the move. |
| Playfield.FriendsStay | examples/j2me/tafl-client/src/playfield.c:95-128 | Everything else but the moved piece stays where it is. |
| Playfield.GeneratedIffAccepted | examples/j2me/tafl-client/src/playfield.c:130-157 | A move is generated if and only if it is accepted and does not cross the throne. |
| Playfield.ThroneCrossingNotGenerated | examples/j2me/tafl-client/src/playfield.c:130-157 | A lone piece may cross the empty throne, but the move is not generated. |
| Game.MoveCounts | examples/j2me/tafl-client/src/playfield.c:95-128 | No move raises the number of pieces of any kind. |
| Game.OwnCountsKept | examples/j2me/tafl-client/src/playfield.c:95-128 | A move removes no piece of the mover's own side. |
| Game.MoveKeepsLegal | examples/j2me/tafl-client/src/playfield.c:50-128 | An accepted move keeps the padding, one king at most, corners for the king alone, and an empty throne empty. |
| Game.RunKeepsLegal | examples/j2me/tafl-client/src/playfield.c:50-128 | The same over every run of accepted moves. |
| Game.GameKeepsLegal | examples/j2me/tafl-client/src/playfield.c:224-239 | The same from the initial board, with piece counts never above the initial ones. |
| Game.ThroneStaysEmpty | examples/j2me/tafl-client/src/playfield.c:50-128 | Once the throne has been left, it is empty for the rest of the game. |
| Game.InitialLegal | examples/j2me/tafl-client/src/playfield.c:224-239 | The initial board is legal, with the king on the throne. |
| Ai.EvalPlayfield | examples/j2me/tafl-client/src/ai.c:87-117 | The loops add up the value of every piece on the board. |
| Ai.PieceWorth | examples/j2me/tafl-client/src/ai.c:14-85 | The value of every kind of piece, by its black and white neighbours, the side to move, and for the king the distance, the edge and the corners. |
| Ai.EvalBounds | examples/j2me/tafl-client/src/ai.c:13-117 | With at most one king the evaluation lies strictly within the infinities. |
| Ai.AlphaBeta | examples/j2me/tafl-client/src/ai.c:119-198 | The value returned is one that the tie-break allows, and the move is legal. A value better than the start value and the end of the window was returned by the search of the board after the move that is given back, so there is one. For every window within the infinities, and for any window on a board whose search tree is sound: a result at most alpha or at least beta bounds plain minimax on that side, any other is minimax. |
| Ai.ChildrenAreMoves | examples/j2me/tafl-client/src/ai.c:134-164 | The children of a board are the boards after the accepted moves of the side to move that do not cross the throne. |
| Ai.ReturnsBounds | examples/j2me/tafl-client/src/ai.c:119-198 | Every value that some tie-break allows is exact inside the window and a bound outside it, under the same condition. |
| Ai.OneKingSound | examples/j2me/tafl-client/src/ai.c:119-198 | With at most one king on the board the search tree is sound, so that every window is covered. |
| SearchWindows.SoundIff | examples/j2me/tafl-client/src/ai.c:129-176 | The search is right for every window and tie-break on every board of its tree if and only if nowhere in the tree children that may tie with the start value of best_eval precede nothing but worse children. |
| SearchWindows.TieThenWorseFails | examples/j2me/tafl-client/src/ai.c:166-190 | Where they do, some window and tie-break return a wrong value. |
| SearchWindows.AlphaBetaWrong | examples/j2me/tafl-client/src/ai.c:166-190 | A board with two kings on which every window around -30001 and -30000 may return -30001, which is neither the minimax value nor a bound. |
| Ai.RunAi | examples/j2me/tafl-client/src/game.c:36-47 | From the infinite window the value is the minimax value, whatever the tie-break. Unless it is the worst value of the side to move, a move is given back, and the search of the board after it returned this value. |
| Ai.BestIsExtreme | examples/j2me/tafl-client/src/ai.c:119-198 | Plain minimax takes the largest child value for black and the smallest for white. |
| Ai.MinimaxFinite | examples/j2me/tafl-client/src/ai.c:119-198 | With at most one king every minimax value lies within the infinities. |

## Left out

- `bal`, `mthi`, `mtlo`, floating point instructions, syscalls, `break` and try/catch regions of the
  translator: outside the integer core, or not meant to behave as on MIPS.
- `lwl`, `lwr`, `swl` and `swr` on their own: the translator supports them only in pairs, and `Variants`
  proves the pairs.
- Methods of several functions, the thread-safe mode, prefix instructions, builtin functions, tracing and the
  optional pruning of stack stores.
- The `.limit stack` directive and the sizes of emitted methods: the code does not keep its bound in general.
- Subroutine calls inside a method: the subroutine's code is proved for an entry with the return address on the
  stack, but `jsr` and `ret` are not instructions of the target machine; `LoadVariantsAgree` states the value it
  leaves.
- Callees of a translated method are opaque: each is a function of its arguments and the memory, which gives a
  memory and what is left in the registers that a callee may change. A callee that depends on other registers, or
  that changes one it has to preserve, is not modelled.
- The state of Java memory after an exception in the middle of an operation.
- Method lookup by address, class allocation, ELF and DWARF reading, Jasmin output syntax.
- Ai.AlphaBeta: the move given back leads to a board whose own search returned the value; because of ties that search
  may have returned only a bound, so the move need not be one of the best by plain minimax.
- Playfield.Field.CanMoveXY: negative coordinates read as invalid, as is intended; the array access of the source
  does not ensure it.
- JavaMethod.MethodCorrect: a run that does not return is not covered, because the theorem speaks of complete runs;
  nor is one that computes with a register which was neither passed nor written, other than by saving and
  restoring it, unless that register holds zero, because the Java method computes with zero there.
- Smalloc.Heap.Malloc: the user's data and the list links share no address space with each other in the model; the
  headers live in a map from addresses, so a program that overwrites them is out of scope.
- `realloc`, `firstfit` (not compiled in), `localtime`, `strftime`, `sscanf`.
- Calendar.TimegmOfGmtime: times are those of a 32-bit `time_t`.
- Printf.Vsnprintf: formats are literals and integer conversions with flags, width, precision and length; `*`,
  `%s`, `%c`, `%f`, `%n` and a null format are not modelled.
- Printf.Strtoll: bases other than 0, 10 and 16 are excluded, as the source asserts.
- S9.Index.AddWord: arrays that the source grows by doubling are sequences; the initial sizes estimated from the
  expected number of words do not affect what a lookup finds.
- Polygon.FillPolygon: triangles are recorded instead of drawn. That the triangles of a polygon without crossing edges
  do not overlap is not stated.
- CallTable.Table.AddFunction: the capacity is that of the source's array, and its overflow is excluded.
