/** A 32-bit word as four big-endian bytes, and a word array as the byte memory it stands for. */
module BigEndian {
  import opened Words

  function ByteOf(w: Word, k: nat): Byte
    requires k < 4
  {
    if k == 0 then w / 0x100_0000
    else if k == 1 then w / 0x1_0000 % 0x100
    else if k == 2 then w / 0x100 % 0x100
    else w % 0x100
  }

  function Join(b0: Byte, b1: Byte, b2: Byte, b3: Byte): Word {
    b0 * 0x100_0000 + b1 * 0x1_0000 + b2 * 0x100 + b3
  }

  function Short(high: Byte, low: Byte): Word {
    high * 0x100 + low
  }

  /** `words` is the array that holds the byte memory `bytes`, apart from the word indices in `apart`. */
  ghost predicate Holds(words: seq<Word>, bytes: seq<Byte>, apart: set<nat>) {
    |bytes| == 4 * |words| &&
    forall i: nat :: i < |words| && i !in apart ==>
      words[i] == Join(bytes[4 * i], bytes[4 * i + 1], bytes[4 * i + 2], bytes[4 * i + 3])
  }

  /** The byte memory that a word array stands for. */
  function Bytes(words: seq<Word>): (bytes: seq<Byte>)
    ensures |bytes| == 4 * |words|
  {
    seq(4 * |words|, i requires 0 <= i < 4 * |words| => ByteOf(words[i / 4], i % 4))
  }

  lemma JoinBytes(w: Word)
    ensures Join(ByteOf(w, 0), ByteOf(w, 1), ByteOf(w, 2), ByteOf(w, 3)) == w
  {}

  lemma BytesOfJoin(b0: Byte, b1: Byte, b2: Byte, b3: Byte)
    ensures ByteOf(Join(b0, b1, b2, b3), 0) == b0 && ByteOf(Join(b0, b1, b2, b3), 1) == b1
    ensures ByteOf(Join(b0, b1, b2, b3), 2) == b2 && ByteOf(Join(b0, b1, b2, b3), 3) == b3
  {
    var w := Join(b0, b1, b2, b3);
    assert w / 0x100 == b0 * 0x1_0000 + b1 * 0x100 + b2;
    assert w / 0x1_0000 == b0 * 0x100 + b1;
    assert w / 0x100_0000 == b0;
  }

  /** Every byte memory is held by exactly one word array, and the other way round. */
  lemma HoldsIffBytes(words: seq<Word>, bytes: seq<Byte>)
    ensures Holds(words, bytes, {}) <==> bytes == Bytes(words)
  {
    if Holds(words, bytes, {}) {
      forall a | 0 <= a < |bytes|
        ensures bytes[a] == Bytes(words)[a]
      {
        HeldByte(words, bytes, {}, a);
      }
    }
    forall i | 0 <= i < |words|
      ensures words[i] == Join(Bytes(words)[4 * i], Bytes(words)[4 * i + 1], Bytes(words)[4 * i + 2], Bytes(words)[4 * i + 3])
    {
      BytesAt(words, i);
      JoinBytes(words[i]);
    }
  }

  lemma BytesAt(words: seq<Word>, i: nat)
    requires i < |words|
    ensures forall k :: 0 <= k < 4 ==> Bytes(words)[4 * i + k] == ByteOf(words[i], k)
  {
    assert (4 * i) / 4 == (4 * i + 1) / 4 == (4 * i + 2) / 4 == (4 * i + 3) / 4 == i;
  }

  lemma HeldByte(words: seq<Word>, bytes: seq<Byte>, apart: set<nat>, a: nat)
    requires Holds(words, bytes, apart) && a < |bytes| && a / 4 !in apart
    ensures ByteOf(words[a / 4], a % 4) == bytes[a]
  {
    var i := a / 4;
    BytesOfJoin(bytes[4 * i], bytes[4 * i + 1], bytes[4 * i + 2], bytes[4 * i + 3]);
    assert a == 4 * i + a % 4;
  }

  /** Storing a whole word is storing its four bytes. */
  lemma HoldsAfterWord(words: seq<Word>, bytes: seq<Byte>, apart: set<nat>, i: nat, w: Word)
    requires Holds(words, bytes, apart) && i < |words|
    ensures Holds(words[i := w], bytes[4 * i := ByteOf(w, 0)][4 * i + 1 := ByteOf(w, 1)]
                                     [4 * i + 2 := ByteOf(w, 2)][4 * i + 3 := ByteOf(w, 3)], apart - {i})
  {
    JoinBytes(w);
  }

  /** Replacing the byte at `a` in its word. */
  function SetByte(w: Word, k: nat, v: Byte): Word
    requires k < 4
  {
    if k == 0 then Join(v, ByteOf(w, 1), ByteOf(w, 2), ByteOf(w, 3))
    else if k == 1 then Join(ByteOf(w, 0), v, ByteOf(w, 2), ByteOf(w, 3))
    else if k == 2 then Join(ByteOf(w, 0), ByteOf(w, 1), v, ByteOf(w, 3))
    else Join(ByteOf(w, 0), ByteOf(w, 1), ByteOf(w, 2), v)
  }

  /** Replacing both bytes of the half-word at `k`. */
  function SetShort(w: Word, k: nat, v: Word): Word
    requires k in {0, 2}
  {
    SetByte(SetByte(w, k, v / 0x100 % 0x100), k + 1, v % 0x100)
  }

  lemma HoldsAfterByte(words: seq<Word>, bytes: seq<Byte>, apart: set<nat>, a: nat, v: Byte)
    requires Holds(words, bytes, apart) && a < |bytes|
    ensures Holds(words[a / 4 := SetByte(words[a / 4], a % 4, v)], bytes[a := v], apart)
  {
    var i := a / 4;
    BytesOfJoin(bytes[4 * i], bytes[4 * i + 1], bytes[4 * i + 2], bytes[4 * i + 3]);
    assert a == 4 * i + a % 4;
  }

  lemma BytesAfterByte(words: seq<Word>, a: nat, v: Byte)
    requires a < 4 * |words|
    ensures Bytes(words[a / 4 := SetByte(words[a / 4], a % 4, v)]) == Bytes(words)[a := v]
  {
    hide Holds, Bytes, SetByte;
    HoldsIffBytes(words, Bytes(words));
    HoldsAfterByte(words, Bytes(words), {}, a, v);
    HoldsIffBytes(words[a / 4 := SetByte(words[a / 4], a % 4, v)], Bytes(words)[a := v]);
  }

  lemma BytesAfterWord(words: seq<Word>, i: nat, w: Word)
    requires i < |words|
    ensures Bytes(words[i := w]) == Bytes(words)[4 * i := ByteOf(w, 0)][4 * i + 1 := ByteOf(w, 1)]
                                                [4 * i + 2 := ByteOf(w, 2)][4 * i + 3 := ByteOf(w, 3)]
  {
    hide Holds, Bytes, ByteOf;
    HoldsIffBytes(words, Bytes(words));
    var none: set<nat> := {};
    HoldsAfterWord(words, Bytes(words), none, i, w);
    assert none - {i} == {};
    HoldsIffBytes(words[i := w], Bytes(words)[4 * i := ByteOf(w, 0)][4 * i + 1 := ByteOf(w, 1)]
                                             [4 * i + 2 := ByteOf(w, 2)][4 * i + 3 := ByteOf(w, 3)]);
  }

  /** A store of the half-word at the even address `a`. */
  lemma HoldsAfterShort(words: seq<Word>, bytes: seq<Byte>, apart: set<nat>, a: nat, k: nat, v: Word)
    requires Holds(words, bytes, apart) && a + 1 < |bytes| && k == a % 4 && k in {0, 2}
    ensures Holds(words[a / 4 := SetShort(words[a / 4], k, v)], bytes[a := v / 0x100 % 0x100][a + 1 := v % 0x100], apart)
  {
    var i := a / 4;
    assert (a + 1) / 4 == i && (a + 1) % 4 == k + 1;
    HoldsAfterByte(words, bytes, apart, a, v / 0x100 % 0x100);
    var mid := words[i := SetByte(words[i], k, v / 0x100 % 0x100)];
    hide SetByte;
    HoldsAfterByte(mid, bytes[a := v / 0x100 % 0x100], apart, a + 1, v % 0x100);
    hide Holds;
    assert mid[i := SetByte(mid[i], k + 1, v % 0x100)] == words[i := SetShort(words[i], k, v)];
  }

  /** A byte field of a word, as the shift-and-mask code reads and replaces it. */
  lemma ByteField(w: Word, k: nat, v: Byte)
    requires k < 4
    ensures Low(Drop(w, 8 * (3 - k)), 8) == ByteOf(w, k)
    ensures WithField(w, 8 * (3 - k), 8, v) == SetByte(w, k, v)
  {
    ReadByteField(w, k);
    ScaleToByte(ByteOf(w, k), k);
    ScaleToByte(v, k);
    JoinBytes(w);
  }

  lemma ReadByteField(w: Word, k: nat)
    requires k < 4
    ensures Low(Drop(w, 8 * (3 - k)), 8) == ByteOf(w, k)
  {
    hide Low, Drop;
    LowByte(Drop(w, 8 * (3 - k)));
    DropToByte(w, k);
  }

  lemma LowByte(x: nat)
    ensures Low(x, 8) == x % 0x100 && Low(x, 16) == x % 0x1_0000
  {
    LowValues(x);
  }

  lemma ScaleToByte(x: nat, k: nat)
    requires k < 4
    ensures Scale(x, 8 * (3 - k)) == (if k == 0 then 0x100_0000 * x else if k == 1 then 0x1_0000 * x
                                      else if k == 2 then 0x100 * x else x)
  {
    ScaleValues(x);
  }

  lemma DropToByte(w: Word, k: nat)
    requires k < 4
    ensures Drop(w, 8 * (3 - k)) == (if k == 0 then w / 0x100_0000 else if k == 1 then w / 0x1_0000
                                     else if k == 2 then w / 0x100 else w)
  {
    DropValues(w);
  }

  /** A half-word field at an even byte position `k`. */
  lemma ShortField(w: Word, k: nat, v: Word)
    requires k in {0, 2} && v < 0x1_0000
    ensures Low(Drop(w, 8 * (2 - k)), 16) == ByteOf(w, k) * 0x100 + ByteOf(w, k + 1)
    ensures WithField(w, 8 * (2 - k), 16, v) == SetByte(SetByte(w, k, v / 0x100), k + 1, v % 0x100)
  {
    var f := ByteOf(w, k) * 0x100 + ByteOf(w, k + 1);
    ReadShortField(w, k);
    ScaleToByte(f, k + 1);
    ScaleToByte(v, k + 1);
    JoinBytes(w);
    SetTwoBytes(w, k, v);
  }

  lemma ReadShortField(w: Word, k: nat)
    requires k in {0, 2}
    ensures Low(Drop(w, 8 * (2 - k)), 16) == ByteOf(w, k) * 0x100 + ByteOf(w, k + 1)
  {
    LowByte(Drop(w, 8 * (2 - k)));
    DropToByte(w, k + 1);
    Halves(w);
  }

  lemma Halves(w: Word)
    ensures w / 0x1_0000 % 0x1_0000 == ByteOf(w, 0) * 0x100 + ByteOf(w, 1)
    ensures w % 0x1_0000 == ByteOf(w, 2) * 0x100 + ByteOf(w, 3)
  {
    JoinBytes(w);
  }

  lemma SetTwoBytes(w: Word, k: nat, v: Word)
    requires k in {0, 2} && v < 0x1_0000
    ensures SetByte(SetByte(w, k, v / 0x100), k + 1, v % 0x100) ==
            if k == 0 then Join(v / 0x100, v % 0x100, ByteOf(w, 2), ByteOf(w, 3))
            else Join(ByteOf(w, 0), ByteOf(w, 1), v / 0x100, v % 0x100)
  {
    if k == 0 {
      BytesOfJoin(v / 0x100, ByteOf(w, 1), ByteOf(w, 2), ByteOf(w, 3));
    } else {
      BytesOfJoin(ByteOf(w, 0), ByteOf(w, 1), v / 0x100, ByteOf(w, 3));
    }
  }
}
