/** java/CRunTime.java: the `int[]` memory with its big-endian byte, short, word, long and unaligned
    accesses, the two copies between memory and a Java byte array, and the unsigned arithmetic helpers.
    A Java array index exception is `None` in a read and `false` in a write. */
module CRunTime {
  import opened Words
  import opened Options
  import opened BigEndian

  /** `memory = new int[memorySize / 4]` with a 32-bit `memorySize`. */
  const MAX_WORDS: nat := 0x2000_0000

  type Memory = m: seq<Word> | |m| < MAX_WORDS
  type JavaByte = n: int | -0x80 <= n < 0x80

  // ----- reads -----

  /** The element that a read of `address` selects: `memory[address >> 2]`. */
  function WordAt(mem: Memory, address: Word): (r: Option<Word>)
    ensures r == if address < 4 * |mem| then Some(mem[address / 4]) else None
  {
    var index := Signed(address) / 4;
    if 0 <= index < |mem| then Some(mem[index]) else None
  }

  /** The bit position of the byte (`last` = 3) or short (`last` = 2) at `address`. */
  function BitPosition(last: Word, address: Word): Word {
    ShiftLeft(Wrap(last - WordAnd(address, last)), 3)
  }

  lemma BytePosition(address: Word)
    ensures BitPosition(3, address) == 8 * (3 - address % 4)
  {
    hide WordAnd, Scale;
    AndThree(address);
    ScaleValues(3 - address % 4);
  }

  lemma AndThree(address: Word)
    ensures WordAnd(address, 3) == address % 4
  {
    assert Pow2(2) == 4;
    AndMask(address, 2);
    LowValues(address);
  }

  lemma ShortPosition(address: Word)
    ensures address % 2 == 0 ==> BitPosition(2, address) == 8 * (2 - address % 4)
    ensures BitPosition(2, address) == 8 * (2 - address / 2 % 2 * 2)
  {
    hide WordAnd, Scale;
    HalfOfWord(address);
    var at := 2 - address / 2 % 2 * 2;
    assert WordAnd(address, 2) == 2 - at;
    assert Wrap(at) == at;
    ScaleValues(at);
  }

  lemma HalfOfWord(address: Word)
    ensures WordAnd(address, 2) == address / 2 % 2 * 2
  {
    AndTwo(address);
    Halves(address);
  }

  lemma Halves(address: nat)
    ensures address % 4 - address % 2 == address / 2 % 2 * 2
  {
  }

  function MemoryReadByteUnsigned(mem: Memory, address: Word): (r: Option<Word>)
    ensures r == if address < 4 * |mem| then Some(Bytes(mem)[address]) else None
    ensures r.Some? ==> r.value < 0x100
  {
    hide WordAnd, ShiftRightLogical, BitPosition;
    var val := WordAt(mem, address);
    if val == None then None else
    BytePosition(address);
    MaskByte(val.value, address % 4);
    Some(WordAnd(ShiftRightLogical(val.value, BitPosition(3, address)), 0xFF))
  }

  lemma MaskByte(w: Word, k: nat)
    requires k < 4
    ensures WordAnd(ShiftRightLogical(w, 8 * (3 - k)), 0xFF) == ByteOf(w, k)
  {
    Pow2Values();
    AndMask(Drop(w, 8 * (3 - k)), 8);
    ReadByteField(w, k);
  }

  function MemoryReadByte(mem: Memory, address: Word): (r: Option<Word>)
    ensures r == if address < 4 * |mem| then Some(SignExtend8(Bytes(mem)[address])) else None
  {
    hide MemoryReadByteUnsigned, SignExtendByte;
    var out := MemoryReadByteUnsigned(mem, address);
    if out == None then None else Some(SignExtendByte(out.value))
  }

  function SignExtendByte(out: Word): (r: Word)
    requires out < 0x100
    ensures r == SignExtend8(out)
  {
    SignBit8(out);
    hide WordAnd, WordOr;
    if WordAnd(out, 0x80) != 0 then WordOr(out, 0xFFFF_FF00) else out
  }

  lemma SignBit8(b: Byte)
    ensures WordAnd(b, 0x80) != 0 <==> b >= 0x80
    ensures WordOr(b, 0xFFFF_FF00) == b + 0xFFFF_FF00
  {
    ScaleValues(1);
    ScaleValues(0xFF_FFFF);
    assert Scale(1, 7) == 0x80;
    hide Scale;
    SignBit(b, 0x80, 7, 8, 0xFF_FFFF);
  }

  lemma SignBit16(h: Word)
    requires h < 0x1_0000
    ensures WordAnd(h, 0x8000) != 0 <==> h >= 0x8000
    ensures WordOr(h, 0xFFFF_0000) == h + 0xFFFF_0000
  {
    ScaleValues(1);
    ScaleValues(0xFFFF);
    assert Scale(1, 15) == 0x8000;
    hide Scale;
    SignBit(h, 0x8000, 15, 16, 0xFFFF);
  }

  /** Testing the top bit of a `k`-digit number, and setting all the digits above it. */
  lemma SignBit(x: nat, bit: nat, j: nat, k: nat, high: nat)
    requires k == j + 1 && bit == Scale(1, j) && x < Scale(1, k)
    ensures And(x, bit) != 0 <==> x >= bit
    ensures Or(x, Scale(high, k)) == x + Scale(high, k)
  {
    AndScaled(x, 1, j);
    LowDrop(x, j);
    DropSmall(x, k);
    DropAdds(x, j, 1);
    var d := Drop(x, j);
    assert d < 2;
    LowLess(x, j);
    ScaleZero(j);
    assert And(d, 1) == d;
    AndScaled(x, high, k);
    ScaleZero(k);
    OrDisjoint(x, Scale(high, k));
  }

  lemma {:induction false} DropSmall(x: nat, k: nat)
    requires x < Scale(1, k)
    ensures Drop(x, k) == 0
    decreases k
  {
    if k != 0 {
      DropSmall(x / 2, k - 1);
    }
  }

  lemma {:induction false} LowLess(x: nat, k: nat)
    ensures Low(x, k) < Scale(1, k)
    decreases k
  {
    if k != 0 {
      LowLess(x / 2, k - 1);
    }
  }

  /** An odd address reads the half-word that contains it. */
  function MemoryReadShortUnsigned(mem: Memory, address: Word): (r: Option<Word>)
    ensures r == if address >= 4 * |mem| then None
                 else var a := address / 2 * 2; Some(Short(Bytes(mem)[a], Bytes(mem)[a + 1]))
  {
    hide WordAnd, ShiftRightLogical, BitPosition;
    var val := WordAt(mem, address);
    if val == None then None else
    ShortPosition(address);
    MaskShort(val.value, address / 2 % 2 * 2);
    HalfAddress(mem, address);
    Some(WordAnd(ShiftRightLogical(val.value, BitPosition(2, address)), 0xFFFF))
  }

  lemma MaskShort(w: Word, k: nat)
    requires k in {0, 2}
    ensures WordAnd(ShiftRightLogical(w, 8 * (2 - k)), 0xFFFF) == Short(ByteOf(w, k), ByteOf(w, k + 1))
  {
    Pow2Values();
    AndMask(Drop(w, 8 * (2 - k)), 16);
    ReadShortField(w, k);
  }

  lemma HalfAddress(mem: Memory, address: Word)
    requires address < 4 * |mem|
    ensures var a := address / 2 * 2; var k := address / 2 % 2 * 2;
            a % 4 == k && a + 1 < 4 * |mem| &&
            Bytes(mem)[a] == ByteOf(mem[address / 4], k) && Bytes(mem)[a + 1] == ByteOf(mem[address / 4], k + 1)
  {
    var a := address / 2 * 2;
    assert a / 4 == (a + 1) / 4 == address / 4;
  }

  function MemoryReadShort(mem: Memory, address: Word): (r: Option<Word>)
    ensures r == if address >= 4 * |mem| then None
                 else var a := address / 2 * 2; Some(SignExtend16(Short(Bytes(mem)[a], Bytes(mem)[a + 1])))
  {
    hide MemoryReadShortUnsigned, SignExtendShort, Bytes;
    var out := MemoryReadShortUnsigned(mem, address);
    if out == None then None else Some(SignExtendShort(out.value))
  }

  function SignExtendShort(out: Word): (r: Word)
    requires out < 0x1_0000
    ensures r == SignExtend16(out)
  {
    SignBit16(out);
    hide WordAnd, WordOr;
    if WordAnd(out, 0x8000) != 0 then WordOr(out, 0xFFFF_0000) else out
  }

  function MemoryReadWordLeft(mem: Memory, address: Word): Option<Word> {
    var b0 := MemoryReadByteUnsigned(mem, Wrap(address + 3));
    var b1 := MemoryReadByteUnsigned(mem, Wrap(address + 2));
    var b2 := MemoryReadByteUnsigned(mem, Wrap(address + 1));
    var b3 := MemoryReadByteUnsigned(mem, address);
    if b0 == None || b1 == None || b2 == None || b3 == None then None
    else Some(OrBytes(b0.value, b1.value, b2.value, b3.value))
  }

  /** The four bytes from any address on, aligned or not: what `lwl k` followed by `lwr k + 3` loads. */
  lemma UnalignedRead(mem: Memory, address: Word)
    requires address + 3 < 4 * |mem|
    ensures MemoryReadWordLeft(mem, address) ==
            Some(Join(Bytes(mem)[address], Bytes(mem)[address + 1], Bytes(mem)[address + 2], Bytes(mem)[address + 3]))
  {
    hide MemoryReadByteUnsigned, Bytes, OrBytes, Join;
  }

  function OrBytes(b0: Byte, b1: Byte, b2: Byte, b3: Byte): (r: Word)
    ensures r == Join(b3, b2, b1, b0)
  {
    ScaleOne();
    OrShifted(b0, b1, 8);
    OrShifted(b0 + Scale(b1, 8), b2, 16);
    OrShifted(b0 + Scale(b1, 8) + Scale(b2, 16), b3, 24);
    hide WordOr, ShiftLeft, Scale;
    WordOr(WordOr(WordOr(b0, ShiftLeft(b1, 8)), ShiftLeft(b2, 16)), ShiftLeft(b3, 24))
  }

  lemma ScaleOne()
    ensures Scale(1, 8) == 0x100 && Scale(1, 16) == 0x1_0000 && Scale(1, 24) == 0x100_0000
  {
    ScaleValues(1);
  }

  lemma OrShifted(low: Word, b: Byte, s: nat)
    requires s in {8, 16, 24} && low < Scale(1, s)
    ensures Scale(b, s) == if s == 8 then 0x100 * b else if s == 16 then 0x1_0000 * b else 0x100_0000 * b
    ensures WordOr(low, ShiftLeft(b, s)) == low + Scale(b, s)
  {
    hide Scale, Drop, WordOr, ShiftLeft;
    ScaleValues(b);
    DropSmall(low, s);
    OrAbove(low, b, s);
  }

  lemma OrAbove(low: Word, b: Byte, s: nat)
    requires Drop(low, s) == 0 && Scale(b, s) < 0x1_0000_0000
    ensures WordOr(low, ShiftLeft(b, s)) == low + Scale(b, s)
  {
    hide Scale, Drop;
    OrScaled(low, b, s);
  }

  // ----- writes -----

  /** `memory[address / 4]` with Java's division, which rounds toward zero. */
  function WriteIndex(address: Word): int {
    TruncDiv(Signed(address), 4)
  }

  function StoreByte(mem: Memory, address: Word, v: Word): Option<Memory> {
    var i := WriteIndex(address);
    if 0 <= i < |mem| then Some(mem[i := SetByte(mem[i], address % 4, v % 0x100)]) else None
  }

  function StoreShort(mem: Memory, address: Word, v: Word): Option<Memory> {
    var i, k := WriteIndex(address), address / 2 % 2 * 2;
    if 0 <= i < |mem|
    then Some(mem[i := SetShort(mem[i], k, v)]) else None
  }

  lemma WriteIndexInRange(address: Word)
    ensures address < 0x8000_0000 ==> WriteIndex(address) == address / 4
  {}

  /** In range, a byte store changes exactly its own byte. */
  lemma StoreByteMeaning(mem: Memory, address: Word, v: Word)
    requires address < 4 * |mem|
    ensures StoreByte(mem, address, v).Some?
    ensures Bytes(StoreByte(mem, address, v).value) == Bytes(mem)[address := v % 0x100]
  {
    WriteIndexInRange(address);
    BytesAfterByte(mem, address, v % 0x100);
    hide Bytes, WriteIndex, SetByte;
  }

  /** In range, a short store changes exactly the two bytes of its half-word. */
  lemma StoreShortMeaning(mem: Memory, address: Word, v: Word)
    requires address < 4 * |mem|
    ensures StoreShort(mem, address, v).Some? && address / 2 * 2 + 1 < 4 * |mem|
    ensures Bytes(StoreShort(mem, address, v).value) == WithShort(Bytes(mem), address / 2 * 2, v)
  {
    hide Bytes, WriteIndex, SetByte;
    var a, i, k := address / 2 * 2, address / 4, address / 2 % 2 * 2;
    assert a / 4 == i && (a + 1) / 4 == i && a % 4 == k && (a + 1) % 4 == k + 1;
    WriteIndexInRange(address);
    var mid := mem[i := SetByte(mem[i], k, v / 0x100 % 0x100)];
    BytesAfterByte(mem, a, v / 0x100 % 0x100);
    BytesAfterByte(mid, a + 1, v % 0x100);
    assert mid[i := SetByte(mid[i], k + 1, v % 0x100)] == StoreShort(mem, address, v).value;
  }

  /** The byte memory with the low half of `v` stored big-endian at `a`. */
  function WithShort(bytes: seq<Byte>, a: nat, v: Word): seq<Byte>
    requires a + 1 < |bytes|
  {
    bytes[a := v / 0x100 % 0x100][a + 1 := v % 0x100]
  }

  /** Reads round down and writes round toward zero: the addresses just below zero are written into word 0,
      where a read of the same address raises an exception.  Everywhere else the two select the same word. */
  lemma WriteIndexAgreesIff(mem: Memory, address: Word)
    requires |mem| > 0
    ensures (0 <= WriteIndex(address) < |mem| <==> WordAt(mem, address).Some?) <==> address < 0xFFFF_FFFD
    ensures address >= 0xFFFF_FFFD ==> WriteIndex(address) == 0
  {
    var s := Signed(address);
    assert s < 0 ==> WriteIndex(address) == -((-s) / 4);
  }

  /** `cur &= ~(mask << b); cur |= value << b`, as the write methods compute it. */
  lemma MaskedByte(cur: Word, k: nat, v: Word)
    requires k < 4
    ensures WordAnd(v, 0xFF) == v % 0x100
    ensures WordOr(WordAnd(cur, WordXor(ShiftLeft(0xFF, 8 * (3 - k)), 0xFFFF_FFFF)), ShiftLeft(v % 0x100, 8 * (3 - k)))
            == SetByte(cur, k, v % 0x100)
  {
    AndByteMask(v);
    hide WordOr, WordAnd, WordXor, ShiftLeft;
    FieldInsert(cur, 0xFF, 8 * (3 - k), 8, v % 0x100);
    ByteField(cur, k, v % 0x100);
  }

  lemma AndByteMask(v: Word)
    ensures Pow2(8) == 0x100 && Pow2(16) == 0x1_0000
    ensures WordAnd(v, 0xFF) == v % 0x100 && WordAnd(v, 0xFFFF) == v % 0x1_0000
  {
    Pow2Values();
    AndMask(v, 8);
    AndMask(v, 16);
    LowByte(v);
  }

  lemma MaskedShort(cur: Word, k: nat, v: Word)
    requires k in {0, 2}
    ensures WordAnd(v, 0xFFFF) == v % 0x1_0000
    ensures WordOr(WordAnd(cur, WordXor(ShiftLeft(0xFFFF, 8 * (2 - k)), 0xFFFF_FFFF)), ShiftLeft(v % 0x1_0000, 8 * (2 - k)))
            == SetShort(cur, k, v)
  {
    AndByteMask(v);
    hide WordOr, WordAnd, WordXor, ShiftLeft;
    var h := v % 0x1_0000;
    FieldInsert(cur, 0xFFFF, 8 * (2 - k), 16, h);
    ShortField(cur, k, h);
    HalfBytes(v);
  }

  lemma HalfBytes(v: Word)
    ensures v % 0x1_0000 / 0x100 == v / 0x100 % 0x100 && v % 0x1_0000 % 0x100 == v % 0x100
  {}

  /** The byte memory with the word `v` stored big-endian at `a`, aligned or not. */
  function WithWord(bytes: seq<Byte>, a: nat, v: Word): seq<Byte>
    requires a + 3 < |bytes|
  {
    bytes[a := ByteOf(v, 0)][a + 1 := ByteOf(v, 1)][a + 2 := ByteOf(v, 2)][a + 3 := ByteOf(v, 3)]
  }

  /** `memoryReadLong`: the word that holds the address is the high one. */
  function MemoryReadLong(mem: Memory, address: Word): (r: Option<Long>)
    ensures r.Some? <==> address + 4 < 4 * |mem|
    ensures r.Some? ==> Wrap(r.value / 0x1_0000_0000) == mem[address / 4] && Wrap(r.value) == mem[address / 4 + 1]
  {
    hide LongOr;
    NextWord(address);
    var low, high := WordAt(mem, Wrap(address + 4)), WordAt(mem, address);
    if low == None || high == None then None else
    LongOrParts(high.value, low.value);
    Some(LongOr(WrapLong(high.value * 0x1_0000_0000), low.value))
  }

  lemma NextWord(address: Word)
    ensures address + 4 < 0x8000_0000 ==>
              Wrap(address + 4) == address + 4 && Signed(address) / 4 == address / 4 &&
              Signed(Wrap(address + 4)) / 4 == address / 4 + 1 == (address + 4) / 4
    ensures 0x7FFF_FFFC <= address < 0x8000_0000 ==> Signed(Wrap(address + 4)) < 0
    ensures address >= 0x8000_0000 ==> Signed(address) / 4 < 0
  {}

  /** `memoryWriteLong`: the high word goes where the address points, aligned or not. */
  function StoreLong(mem: Memory, address: Word, v: Long): Option<Memory> {
    var i, j := Signed(address) / 4, Signed(Wrap(address + 4)) / 4;
    if 0 <= i < |mem| && 0 <= j < |mem| then Some(mem[i := Wrap(v / 0x1_0000_0000)][j := Wrap(v)]) else None
  }

  /** In range, a long store is two big-endian word stores from the word boundary on. */
  lemma StoreLongMeaning(mem: Memory, address: Word, v: Long)
    ensures StoreLong(mem, address, v).Some? <==> address + 4 < 4 * |mem|
    ensures StoreLong(mem, address, v).Some? ==>
              var a := address / 4 * 4;
              a + 7 < 4 * |mem| &&
              Bytes(StoreLong(mem, address, v).value) ==
              WithWord(WithWord(Bytes(mem), a, Wrap(v / 0x1_0000_0000)), a + 4, Wrap(v))
  {
    hide Bytes, ByteOf, Wrap;
    NextWord(address);
    if address + 4 < 4 * |mem| {
      var i, high := address / 4, Wrap(v / 0x1_0000_0000);
      BytesAfterWord(mem, i, high);
      BytesAfterWord(mem[i := high], i + 1, Wrap(v));
    }
  }

  /** A long comes back as it was written. */
  lemma LongRoundTrip(mem: Memory, address: Word, v: Long)
    requires StoreLong(mem, address, v).Some?
    ensures MemoryReadLong(StoreLong(mem, address, v).value, address) == Some(v)
  {
    NextWord(address);
    var stored := StoreLong(mem, address, v).value;
    SameHalves(MemoryReadLong(stored, address).value, v);
  }

  lemma SameHalves(x: Long, y: Long)
    ensures Wrap(x) == Wrap(y) && Wrap(x / 0x1_0000_0000) == Wrap(y / 0x1_0000_0000) ==> x == y
  {}

  /** `memoryWriteWordLeft`: four byte stores, last byte first. */
  function StoreWordLeft(mem: Memory, address: Word, v: Word): Option<Memory> {
    var m1 := StoreByte(mem, Wrap(address + 3), v);
    if m1 == None then None else
    var m2 := StoreByte(m1.value, Wrap(address + 2), ShiftRightArith(v, 8));
    if m2 == None then None else
    var m3 := StoreByte(m2.value, Wrap(address + 1), ShiftRightArith(v, 16));
    if m3 == None then None else StoreByte(m3.value, address, ShiftRightArith(v, 24))
  }

  /** In range they are one big-endian word store, aligned or not. */
  lemma UnalignedStore(mem: Memory, address: Word, v: Word)
    requires address + 3 < 4 * |mem|
    ensures StoreWordLeft(mem, address, v).Some?
    ensures Bytes(StoreWordLeft(mem, address, v).value) == WithWord(Bytes(mem), address, v)
  {
    hide Bytes, ByteOf, StoreByte, ShiftRightArith;
    ShiftedBytes(v);
    StoreByteMeaning(mem, address + 3, v);
    var m1 := StoreByte(mem, address + 3, v).value;
    StoreByteMeaning(m1, address + 2, ShiftRightArith(v, 8));
    var m2 := StoreByte(m1, address + 2, ShiftRightArith(v, 8)).value;
    StoreByteMeaning(m2, address + 1, ShiftRightArith(v, 16));
    var m3 := StoreByte(m2, address + 1, ShiftRightArith(v, 16)).value;
    StoreByteMeaning(m3, address, ShiftRightArith(v, 24));
    ReorderedStores(Bytes(mem), address, v);
  }

  lemma ReorderedStores(bytes: seq<Byte>, a: nat, v: Word)
    requires a + 3 < |bytes|
    ensures var s1: seq<Byte> := bytes[a + 3 := ByteOf(v, 3)];
            var s2: seq<Byte> := s1[a + 2 := ByteOf(v, 2)];
            var s3: seq<Byte> := s2[a + 1 := ByteOf(v, 1)];
            s3[a := ByteOf(v, 0)] == WithWord(bytes, a, v)
  {}

  lemma ShiftedBytes(v: Word)
    ensures v % 0x100 == ByteOf(v, 3) && ShiftRightArith(v, 8) % 0x100 == ByteOf(v, 2)
    ensures ShiftRightArith(v, 16) % 0x100 == ByteOf(v, 1) && ShiftRightArith(v, 24) % 0x100 == ByteOf(v, 0)
  {
    hide Drop, ShiftRightArith;
    ArithShiftByte(v, 8, 0x100_0000);
    ArithShiftByte(v, 16, 0x1_0000);
    ArithShiftByte(v, 24, 0x100);
    DropToByte(v, 0);
    DropToByte(v, 1);
    DropToByte(v, 2);
  }

  lemma ArithShiftByte(v: Word, s: nat, f: nat)
    requires (s, f) in {(8, 0x100_0000), (16, 0x1_0000), (24, 0x100)}
    ensures ShiftRightArith(v, s) % 0x100 == Drop(v, s) % 0x100
  {
    hide Drop, Scale;
    ScaleValues(f);
    DropMinusScaled(v, f, s);
  }

  /** The runtime's static memory, written in place. */
  class Runtime {
    var memory: array<Word>

    predicate Valid()
      reads this
    {
      memory.Length < MAX_WORDS
    }

    constructor (memorySize: nat)
      requires memorySize / 4 < MAX_WORDS
      ensures Valid() && fresh(memory) && memory.Length == memorySize / 4
      ensures forall i :: 0 <= i < memory.Length ==> memory[i] == 0
    {
      memory := new Word[memorySize / 4](_ => 0);
    }

    method MemoryWriteByte(address: Word, value: Word) returns (ok: bool)
      requires Valid()
      modifies memory
      ensures var r := StoreByte(old(memory[..]), address, value);
              ok == r.Some? && memory[..] == if ok then r.value else old(memory[..])
    {
      hide WordAnd, WordOr, WordXor, ShiftLeft, BitPosition, SetByte;
      var byte := WordAnd(value, 0xFF);
      var i := WriteIndex(address);
      if !(0 <= i < memory.Length) {
        return false;
      }
      var cur := memory[i];
      var b := BitPosition(3, address);
      BytePosition(address);
      MaskedByte(cur, address % 4, value);
      cur := WordAnd(cur, WordXor(ShiftLeft(0xFF, b), 0xFFFF_FFFF));
      cur := WordOr(cur, ShiftLeft(byte, b));
      memory[i] := cur;
      return true;
    }

    method MemoryWriteShort(address: Word, value: Word) returns (ok: bool)
      requires Valid()
      modifies memory
      ensures var r := StoreShort(old(memory[..]), address, value);
              ok == r.Some? && memory[..] == if ok then r.value else old(memory[..])
    {
      hide WordAnd, WordOr, WordXor, ShiftLeft, BitPosition, SetByte;
      var short := WordAnd(value, 0xFFFF);
      var i := WriteIndex(address);
      if !(0 <= i < memory.Length) {
        return false;
      }
      var cur := memory[i];
      var b := BitPosition(2, address);
      ShortPosition(address);
      MaskedShort(cur, address / 2 % 2 * 2, value);
      cur := WordAnd(cur, WordXor(ShiftLeft(0xFFFF, b), 0xFFFF_FFFF));
      cur := WordOr(cur, ShiftLeft(short, b));
      memory[i] := cur;
      return true;
    }

    method MemoryWriteWord(address: Word, value: Word) returns (ok: bool)
      requires Valid()
      modifies memory
      ensures ok <==> 0 <= WriteIndex(address) < memory.Length
      ensures memory[..] == if ok then old(memory[..])[WriteIndex(address) := value] else old(memory[..])
    {
      var i := WriteIndex(address);
      if !(0 <= i < memory.Length) {
        return false;
      }
      memory[i] := value;
      return true;
    }

    /** `swl k` followed by `swr k + 3`: the four bytes of `value` at any address. */
    method MemoryWriteWordLeft(address: Word, value: Word) returns (ok: bool)
      requires Valid()
      modifies memory
      ensures var r := StoreWordLeft(old(memory[..]), address, value);
              ok == r.Some? && (ok ==> memory[..] == r.value)
    {
      hide StoreByte, ShiftRightArith;
      ok := MemoryWriteByte(Wrap(address + 3), value);
      if !ok { return; }
      ok := MemoryWriteByte(Wrap(address + 2), ShiftRightArith(value, 8));
      if !ok { return; }
      ok := MemoryWriteByte(Wrap(address + 1), ShiftRightArith(value, 16));
      if !ok { return; }
      ok := MemoryWriteByte(address, ShiftRightArith(value, 24));
    }

    /** The two words of a long, high word first. */
    method MemoryWriteLong(address: Word, value: Long) returns (ok: bool)
      requires Valid()
      modifies memory
      ensures var r := StoreLong(old(memory[..]), address, value);
              ok == r.Some? && (ok ==> memory[..] == r.value)
    {
      var i, j := Signed(address) / 4, Signed(Wrap(address + 4)) / 4;
      if !(0 <= i < memory.Length) {
        return false;
      }
      memory[i] := Wrap(value / 0x1_0000_0000);
      if !(0 <= j < memory.Length) {
        return false;
      }
      memory[j] := Wrap(value);
      return true;
    }

    /** The byte at `address` in range is written and the exception cannot arise. */
    method PutByte(address: nat, value: Word)
      requires Valid() && address < 4 * memory.Length
      modifies memory
      ensures Bytes(memory[..]) == old(Bytes(memory[..]))[address := value % 0x100]
    {
      hide Bytes, StoreByte;
      StoreByteMeaning(memory[..], address, value);
      var ok := MemoryWriteByte(address, value);
    }

    /** `memcpy(addr, bytes, off, size)`: bytes up to a word boundary, then whole words, then the rest. */
    method CopyIn(addr0: Word, bytes: array<JavaByte>, off0: int, size0: int)
      requires Valid()
      requires size0 > 0 ==> addr0 + size0 <= 4 * memory.Length && 0 <= off0 && off0 + size0 <= bytes.Length
      modifies memory
      ensures Bytes(memory[..]) == Spliced(old(Bytes(memory[..])), addr0, Unsigned(Slice(bytes[..], off0, size0)))
    {
      hide Bytes, Spliced, Unsigned, Slice, Copied, WordAnd, WithWord, UByte, Wrap, ByteOf;
      var addr, off, size := addr0 as int, off0, size0;
      ghost var start, src := Bytes(memory[..]), Unsigned(Slice(bytes[..], off0, size0));
      CopiedEnds(start, addr0, src);
      SliceAt(bytes[..], off0, size0);
      while WordAnd(addr, 3) != 0 && size > 0
        invariant 0 <= addr - addr0 <= |src| && addr < 0x1_0000_0000
        invariant addr - addr0 == off - off0 == size0 - size
        invariant Copied(Bytes(memory[..]), start, addr0, src, addr - addr0)
        decreases size
      {
        CopyStep(Bytes(memory[..]), start, addr0, src, addr - addr0);
        WrapByte(bytes[off]);
        PutByte(addr, Wrap(bytes[off]));
        off, addr, size := off + 1, addr + 1, size - 1;
        if size == 0 {
          return;
        }
      }
      AndThree(addr);
      while size > 3
        invariant 0 <= addr - addr0 <= |src| && (size > 0 ==> addr % 4 == 0)
        invariant addr - addr0 == off - off0 == size0 - size
        invariant Copied(Bytes(memory[..]), start, addr0, src, addr - addr0)
        decreases size
      {
        var w := GatherWord(bytes, off);
        CopyWordStep(Bytes(memory[..]), start, addr0, src, addr - addr0, w);
        PutWord(addr, w);
        off, addr, size := off + 4, addr + 4, size - 4;
      }
      while size > 0
        invariant 0 <= addr - addr0 <= |src|
        invariant addr - addr0 == off - off0 == size0 - size
        invariant Copied(Bytes(memory[..]), start, addr0, src, addr - addr0)
        decreases size
      {
        CopyStep(Bytes(memory[..]), start, addr0, src, addr - addr0);
        WrapByte(bytes[off]);
        PutByte(addr, Wrap(bytes[off]));
        off, addr, size := off + 1, addr + 1, size - 1;
      }
    }

    /** An aligned word store in range is a store of its four bytes. */
    method PutWord(address: nat, w: Word)
      requires Valid() && address % 4 == 0 && address < 4 * memory.Length
      modifies memory
      ensures Bytes(memory[..]) == WithWord(old(Bytes(memory[..])), address, w)
    {
      hide Bytes, ByteOf;
      BytesAfterWord(memory[..], address / 4, w);
      WriteIndexInRange(address);
      var ok := MemoryWriteWord(address, w);
    }

    /** `memcpy(bytes, off, addr, size)`: every byte through a signed byte read. */
    method CopyOut(bytes: array<JavaByte>, off0: int, addr0: Word, size0: int)
      requires Valid()
      requires size0 > 0 ==> addr0 + size0 <= 4 * memory.Length && 0 <= off0 && off0 + size0 <= bytes.Length
      modifies bytes
      ensures size0 <= 0 ==> bytes[..] == old(bytes[..])
      ensures size0 > 0 ==>
                bytes[..off0] == old(bytes[..off0]) && bytes[off0 + size0..] == old(bytes[off0 + size0..]) &&
                Unsigned(bytes[off0..off0 + size0]) == Bytes(memory[..])[addr0..addr0 + size0]
    {
      hide Bytes, MemoryReadByte;
      var addr, off, size := addr0 as int, off0, size0;
      ghost var mem := memory[..];
      while size > 0
        invariant size0 > 0 ==> 0 <= size <= size0
        invariant size0 <= 0 ==> size == size0 && bytes[..] == old(bytes[..])
        invariant addr - addr0 == off - off0 == size0 - size
        invariant size0 > 0 ==> forall i :: 0 <= i < bytes.Length && (i < off0 || off <= i) ==> bytes[i] == old(bytes[i])
        invariant size0 > 0 ==> forall i :: off0 <= i < off ==> UByte(bytes[i]) == Bytes(mem)[addr0 + (i - off0)]
        decreases size
      {
        var r := MemoryReadByte(memory[..], addr);
        bytes[off] := ToJavaByte(r.value);
        off, addr, size := off + 1, addr + 1, size - 1;
      }
      if size0 > 0 {
        CopiedOut(bytes[..], off0, Bytes(mem), addr0, size0);
      }
    }
  }

  lemma CopiedOut(s: seq<JavaByte>, off: nat, from: seq<Byte>, a: nat, n: nat)
    requires off + n <= |s| && a + n <= |from|
    requires forall i :: off <= i < off + n ==> UByte(s[i]) == from[a + (i - off)]
    ensures Unsigned(s[off..off + n]) == from[a..a + n]
  {}

  /** Java's `(byte)` cast. */
  function ToJavaByte(w: Word): (b: JavaByte)
    ensures b % 0x100 == w % 0x100
  {
    (w + 0x80) % 0x100 - 0x80
  }

  function UByte(b: JavaByte): Byte {
    b as int % 0x100
  }

  function Unsigned(s: seq<JavaByte>): (r: seq<Byte>)
    ensures |r| == |s|
  {
    seq(|s|, i requires 0 <= i < |s| => UByte(s[i]))
  }

  /** The `n` elements from `off` on; none when `n` is not positive. */
  function Slice<T>(s: seq<T>, off: int, n: int): (r: seq<T>)
    requires n > 0 ==> 0 <= off && off + n <= |s|
    ensures |r| == if n > 0 then n else 0
  {
    if n > 0 then s[off..off + n] else []
  }

  lemma SliceAt(s: seq<JavaByte>, off: int, n: int)
    requires n > 0 ==> 0 <= off && off + n <= |s|
    ensures forall k :: 0 <= k < n ==> Unsigned(Slice(s, off, n))[k] == UByte(s[off + k])
  {}

  /** `dst` with `src` written over it from position `a` on. */
  function Spliced(dst: seq<Byte>, a: nat, src: seq<Byte>): (r: seq<Byte>)
    requires src == [] || a + |src| <= |dst|
    ensures |r| == |dst|
  {
    if src == [] then dst else dst[..a] + src + dst[a + |src|..]
  }

  /** The first `done` bytes of `src` are in place and nothing else has changed. */
  ghost predicate Copied(now: seq<Byte>, start: seq<Byte>, a: nat, src: seq<Byte>, done: int)
    requires src == [] || a + |src| <= |start|
  {
    0 <= done <= |src| && now == Spliced(start, a, src[..done])
  }

  lemma CopiedEnds(start: seq<Byte>, a: nat, src: seq<Byte>)
    requires src == [] || a + |src| <= |start|
    ensures Copied(start, start, a, src, 0)
    ensures forall now :: Copied(now, start, a, src, |src|) <==> now == Spliced(start, a, src)
  {
    assert src[..|src|] == src;
  }

  lemma CopyStep(now: seq<Byte>, start: seq<Byte>, a: nat, src: seq<Byte>, done: nat)
    requires done < |src| && a + |src| <= |start| && Copied(now, start, a, src, done)
    ensures |now| == |start| && Copied(now[a + done := src[done]], start, a, src, done + 1)
  {
    SpliceOne(start, a, src, done);
  }

  lemma CopyWordStep(now: seq<Byte>, start: seq<Byte>, a: nat, src: seq<Byte>, done: nat, w: Word)
    requires done + 4 <= |src| && a + |src| <= |start| && Copied(now, start, a, src, done)
    requires forall j :: 0 <= j < 4 ==> src[done + j] == ByteOf(w, j)
    ensures |now| == |start| && Copied(WithWord(now, a + done, w), start, a, src, done + 4)
  {
    SpliceWord(start, a, src, done, w);
  }

  lemma SpliceOne(dst: seq<Byte>, a: nat, src: seq<Byte>, k: nat)
    requires a + |src| <= |dst| && k < |src|
    ensures Spliced(dst, a, src[..k + 1]) == Spliced(dst, a, src[..k])[a + k := src[k]]
  {}

  lemma SpliceWord(dst: seq<Byte>, a: nat, src: seq<Byte>, k: nat, w: Word)
    requires a + |src| <= |dst| && k + 4 <= |src|
    requires forall j :: 0 <= j < 4 ==> src[k + j] == ByteOf(w, j)
    ensures Spliced(dst, a, src[..k + 4]) == WithWord(Spliced(dst, a, src[..k]), a + k, w)
  {
    assert src[k + 0] == ByteOf(w, 0);
    assert src[k + 1] == ByteOf(w, 1);
    assert src[k + 2] == ByteOf(w, 2);
    assert src[k + 3] == ByteOf(w, 3);
    hide ByteOf;
    SpliceOne(dst, a, src, k);
    SpliceOne(dst, a, src, k + 1);
    SpliceOne(dst, a, src, k + 2);
    SpliceOne(dst, a, src, k + 3);
    hide Spliced;
  }

  /** The inner loop of `memcpy`: four bytes shifted in, most significant first. */
  method GatherWord(bytes: array<JavaByte>, off: nat) returns (w: Word)
    requires off + 4 <= bytes.Length
    ensures forall j :: 0 <= j < 4 ==> ByteOf(w, j) == UByte(bytes[off + j])
  {
    w := 0;
    ghost var bs := Unsigned(bytes[off..off + 4]);
    for j := 0 to 4
      invariant w == FirstBytes(bs, j)
    {
      hide WordAnd, WordOr, ShiftLeft, FirstBytes, UByte;
      MaskJavaByte(bytes[off + j]);
      GatherStep(bs, j);
      var b := WordAnd(Wrap(bytes[off + j]), 0xFF);
      ShiftIn(w, b);
      w := ShiftLeft(w, 8);
      w := WordOr(w, b);
    }
    GatheredBytes(bs);
    hide ByteOf, FirstBytes, UByte;
  }

  /** The value of the first `j` of four bytes. */
  function FirstBytes(bs: seq<Byte>, j: nat): Word
    requires |bs| == 4 && j <= 4
  {
    if j == 0 then 0
    else if j == 1 then bs[0]
    else if j == 2 then bs[0] * 0x100 + bs[1]
    else if j == 3 then bs[0] * 0x1_0000 + bs[1] * 0x100 + bs[2]
    else Join(bs[0], bs[1], bs[2], bs[3])
  }

  lemma GatherStep(bs: seq<Byte>, j: nat)
    requires |bs| == 4 && j < 4
    ensures FirstBytes(bs, j) < 0x100_0000 && FirstBytes(bs, j + 1) == 0x100 * FirstBytes(bs, j) + bs[j]
  {}

  lemma WrapByte(b: JavaByte)
    ensures Wrap(b) % 0x100 == UByte(b)
  {}

  lemma MaskJavaByte(b: JavaByte)
    ensures WordAnd(Wrap(b), 0xFF) == UByte(b)
  {
    AndByteMask(Wrap(b));
    hide WordAnd;
  }

  lemma GatheredBytes(bs: seq<Byte>)
    requires |bs| == 4
    ensures forall j :: 0 <= j < 4 ==> ByteOf(FirstBytes(bs, 4), j) == bs[j]
  {
    BytesOfJoin(bs[0], bs[1], bs[2], bs[3]);
    hide Join, ByteOf;
  }

  lemma ShiftIn(w: Word, b: Byte)
    requires w < 0x100_0000
    ensures WordOr(ShiftLeft(w, 8), b) == 0x100 * w + b
  {
    EightLeft(w);
    OrByte(w, b);
    hide Or, ShiftLeft;
  }

  lemma EightLeft(w: Word)
    requires w < 0x100_0000
    ensures ShiftLeft(w, 8) == 0x100 * w
  {
    ScaleValues(w);
    hide Scale;
  }

  lemma OrByte(w: Word, b: Byte)
    requires w < 0x100_0000
    ensures Or(0x100 * w, b) == 0x100 * w + b
  {
    assert Scale(w, 8) == 0x100 * w by { ScaleValues(w); }
    ScaleOne();
    OrLowDigits(w, b, 8);
    hide Scale;
  }

  lemma {:induction false} OrLowDigits(w: nat, b: nat, k: nat)
    requires b < Scale(1, k)
    ensures Or(Scale(w, k), b) == Scale(w, k) + b
    decreases k
  {
    if k != 0 {
      OrLowDigits(w, b / 2, k - 1);
      OrUnfold(2 * Scale(w, k - 1), b);
    }
  }

  lemma OrUnfold(a: nat, b: nat)
    ensures Or(a, b) == 2 * Or(a / 2, b / 2) + (if a % 2 == 1 || b % 2 == 1 then 1 else 0)
  {}

  // ----- unsigned arithmetic -----

  /** `divu`: the remainder in the high word and the quotient in the low one; a zero divisor is an
      ArithmeticException.  Operands whose sign bits are clear are divided as ints. */
  function Divu(rs: Word, rt: Word): (r: Option<Long>)
    ensures r.None? <==> rt == 0
    ensures r.Some? ==> Wrap(r.value) == rs / rt && Wrap(r.value / 0x1_0000_0000) == rs % rt
  {
    if rt == 0 then None else
    UnsignedQuotient(rs, rt);
    hide TruncDiv, TruncMod;
    var asLong := Signed(rs) < 0 || Signed(rt) < 0;
    var low := if asLong then TruncDiv(rs, rt) else TruncDiv(Signed(rs), Signed(rt));
    var high := if asLong then TruncMod(rs, rt) else TruncMod(Signed(rs), Signed(rt));
    LongOrParts(high, low);
    Some(LongOr(WrapLong(high * 0x1_0000_0000), low))
  }

  lemma UnsignedQuotient(a: nat, b: nat)
    requires b > 0
    ensures TruncDiv(a, b) == a / b && TruncMod(a, b) == a % b
    ensures 0 <= a / b <= a && 0 <= a % b < b
  {
    var q := a / b;
    assert a == b * q + a % b;
    assert q * b == b * q;
    if q > a {
      assert b * q >= q by { MulAtLeast(b, q); }
    }
    if q < 0 {
      MulAtLeast(-q, b);
    }
  }

  lemma MulAtLeast(k: int, d: int)
    requires k >= 1 && d >= 1
    ensures k * d >= d
  {
    assert k * d == (k - 1) * d + d;
  }

  /** `|` on longs, digit by digit of their two's complement readings. */
  function LongOr(a: Long, b: Long): Long {
    WrapLong(Or(a % 0x1_0000_0000_0000_0000, b % 0x1_0000_0000_0000_0000))
  }

  lemma LongOrParts(high: Word, low: Word)
    ensures var r := LongOr(WrapLong(high * 0x1_0000_0000), low);
            Wrap(r) == low && Wrap(r / 0x1_0000_0000) == high
  {
    var h := high * 0x1_0000_0000;
    assert LongOr(WrapLong(h), low) == WrapLong(h + low) by {
      Unwrapped(h);
      Unwrapped(low);
      OrWords(high, low);
      hide Or, WrapLong;
    }
    hide LongOr;
    WrapLongParts(h + low);
    WordParts(high, low);
    hide WrapLong;
  }

  lemma WordParts(high: Word, low: Word)
    ensures Wrap(high * 0x1_0000_0000 + low) == low
    ensures Wrap((high * 0x1_0000_0000 + low) / 0x1_0000_0000) == high
  {}

  lemma Unwrapped(x: int)
    requires 0 <= x < 0x1_0000_0000_0000_0000
    ensures WrapLong(x) % 0x1_0000_0000_0000_0000 == x
    ensures x < 0x8000_0000_0000_0000 ==> x % 0x1_0000_0000_0000_0000 == x
  {}

  lemma OrWords(high: Word, low: Word)
    ensures Or(high * 0x1_0000_0000, low) == high * 0x1_0000_0000 + low
  {
    assert Scale(high, 32) == 0x1_0000_0000 * high by { ScaleValues(high); }
    assert Scale(1, 32) == 0x1_0000_0000 by { ScaleValues(1); }
    OrLowDigits(high, low, 32);
    hide Scale;
  }

  /** Wrapping to 64 bits keeps both 32-bit halves. */
  lemma WrapLongParts(p: int)
    ensures Wrap(WrapLong(p)) == Wrap(p) && Wrap(WrapLong(p) / 0x1_0000_0000) == Wrap(p / 0x1_0000_0000)
  {
    var k := (p + 0x8000_0000_0000_0000) / 0x1_0000_0000_0000_0000;
    assert WrapLong(p) == p - 0x1_0000_0000_0000_0000 * k;
    assert WrapLong(p) / 0x1_0000_0000 == p / 0x1_0000_0000 - 0x1_0000_0000 * k;
  }

  function Multu(rs: Word, rt: Word): (r: Long)
    ensures Wrap(r) == Wrap(rs * rt) && Wrap(r / 0x1_0000_0000) == Wrap(rs * rt / 0x1_0000_0000)
  {
    WrapLongParts(rs * rt);
    hide Wrap;
    WrapLong(rs * rt)
  }

  function Sltu(a: Word, b: Word): Word {
    if a < b then 1 else 0
  }
}
