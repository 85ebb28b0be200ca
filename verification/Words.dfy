/** Machine words as bounded integers: 32-bit words are kept in their unsigned reading, 64-bit longs in
    their signed one.  The bit operations are defined on the binary digits, and the lemmas below give the
    arithmetic meaning of the masks and shifts that the translator and the runtime use. */
module Words {

  type Word = n: int | 0 <= n < 0x1_0000_0000
  type Byte = n: int | 0 <= n < 0x100
  type Long = n: int | -0x8000_0000_0000_0000 <= n < 0x8000_0000_0000_0000

  /** The 32-bit word congruent to `x`: what an overflowing 32-bit operation leaves. */
  function Wrap(x: int): Word {
    x % 0x1_0000_0000
  }

  /** The two's complement reading of a word. */
  function Signed(w: Word): int {
    if w < 0x8000_0000 then w else w - 0x1_0000_0000
  }

  /** The signed 64-bit value congruent to `x`. */
  function WrapLong(x: int): Long {
    (x + 0x8000_0000_0000_0000) % 0x1_0000_0000_0000_0000 - 0x8000_0000_0000_0000
  }

  function SignExtend8(w: Word): Word {
    if w % 0x100 < 0x80 then w % 0x100 else Wrap(w % 0x100 - 0x100)
  }

  function SignExtend16(w: Word): Word {
    if w % 0x1_0000 < 0x8000 then w % 0x1_0000 else Wrap(w % 0x1_0000 - 0x1_0000)
  }

  /** Quotient and remainder rounding toward zero, as Java's and C's `/` and `%` do. */
  function TruncDiv(a: int, b: int): int
    requires b != 0
  {
    var q := (if a < 0 then -a else a) / (if b < 0 then -b else b);
    if (a < 0) == (b < 0) then q else -q
  }

  function TruncMod(a: int, b: int): int
    requires b != 0
  {
    a - TruncDiv(a, b) * b
  }

  // ----- powers of two and bit operations -----

  function Pow2(k: nat): (p: nat)
    ensures p >= 1
  {
    if k == 0 then 1 else 2 * Pow2(k - 1)
  }

  function And(a: nat, b: nat): (r: nat)
    ensures r <= a && r <= b
  {
    if a == 0 || b == 0 then 0
    else 2 * And(a / 2, b / 2) + (if a % 2 == 1 && b % 2 == 1 then 1 else 0)
  }

  function Or(a: nat, b: nat): (r: nat)
    ensures a <= r && b <= r <= a + b
  {
    if a == 0 then b
    else if b == 0 then a
    else 2 * Or(a / 2, b / 2) + (if a % 2 == 1 || b % 2 == 1 then 1 else 0)
  }

  function Xor(a: nat, b: nat): (r: nat)
    ensures r <= a + b
  {
    if a == 0 then b
    else if b == 0 then a
    else 2 * Xor(a / 2, b / 2) + (if a % 2 != b % 2 then 1 else 0)
  }

  lemma {:induction false} OrXorBound(a: nat, b: nat, k: nat)
    requires a < Pow2(k) && b < Pow2(k)
    ensures Or(a, b) < Pow2(k) && Xor(a, b) < Pow2(k)
  {
    if a != 0 && b != 0 {
      OrXorBound(a / 2, b / 2, k - 1);
    }
  }

  lemma Pow2Values()
    ensures Pow2(0) == 1 && Pow2(1) == 2 && Pow2(2) == 4 && Pow2(3) == 8
    ensures Pow2(8) == 0x100 && Pow2(16) == 0x1_0000 && Pow2(24) == 0x100_0000 && Pow2(32) == 0x1_0000_0000
  {
    assert Pow2(4) == 16;
    assert Pow2(6) == 64;
    assert Pow2(8) == 0x100;
    assert Pow2(10) == 0x400;
    assert Pow2(12) == 0x1000;
    assert Pow2(14) == 0x4000;
    assert Pow2(16) == 0x1_0000;
    assert Pow2(18) == 0x4_0000;
    assert Pow2(20) == 0x10_0000;
    assert Pow2(22) == 0x40_0000;
    assert Pow2(24) == 0x100_0000;
    assert Pow2(26) == 0x400_0000;
    assert Pow2(28) == 0x1000_0000;
    assert Pow2(30) == 0x4000_0000;
  }

  function WordAnd(a: Word, b: Word): Word {
    And(a, b)
  }

  function WordOr(a: Word, b: Word): Word {
    Pow2Values();
    OrXorBound(a, b, 32);
    Or(a, b)
  }

  function WordXor(a: Word, b: Word): Word {
    Pow2Values();
    OrXorBound(a, b, 32);
    Xor(a, b)
  }

  /** `x * 2^s`. */
  function Scale(x: nat, s: nat): (r: nat)
    ensures r >= x
  {
    if s == 0 then x else 2 * Scale(x, s - 1)
  }

  /** `x / 2^s`, rounded down. */
  function Drop(x: int, s: nat): (r: int)
    ensures x >= 0 ==> 0 <= r <= x
    decreases s
  {
    if s == 0 then x else Drop(x / 2, s - 1)
  }

  lemma ScaleValues(x: nat)
    ensures Scale(x, 0) == x && Scale(x, 1) == 2 * x && Scale(x, 2) == 4 * x && Scale(x, 3) == 8 * x
    ensures Scale(x, 8) == 0x100 * x && Scale(x, 16) == 0x1_0000 * x && Scale(x, 24) == 0x100_0000 * x
    ensures Scale(x, 32) == 0x1_0000_0000 * x
  {
    ScaleEight(x);
    ScaleEight(Scale(x, 8));
    ScaleEight(Scale(x, 16));
    ScaleAdds(x, 8, 8);
    ScaleAdds(x, 16, 8);
    ScaleEight(Scale(x, 24));
    ScaleAdds(x, 24, 8);
  }

  lemma ScaleEight(x: nat)
    ensures Scale(x, 1) == 2 * x && Scale(x, 2) == 4 * x && Scale(x, 3) == 8 * x && Scale(x, 8) == 0x100 * x
  {
    assert Scale(x, 1) == 2 * x;
    assert Scale(x, 3) == 8 * x;
    assert Scale(x, 5) == 32 * x;
    assert Scale(x, 7) == 128 * x;
  }

  lemma {:induction false} ScaleAdds(x: nat, s: nat, t: nat)
    ensures Scale(Scale(x, s), t) == Scale(x, s + t)
  {
    if t != 0 {
      ScaleAdds(x, s, t - 1);
    }
  }

  lemma {:induction false} DropAdds(x: int, s: nat, t: nat)
    ensures Drop(Drop(x, s), t) == Drop(x, s + t)
    decreases s
  {
    if s != 0 {
      DropAdds(x / 2, s - 1, t);
    }
  }

  lemma DropValues(x: int)
    ensures Drop(x, 0) == x && Drop(x, 1) == x / 2 && Drop(x, 2) == x / 4 && Drop(x, 8) == x / 0x100
    ensures Drop(x, 16) == x / 0x1_0000 && Drop(x, 24) == x / 0x100_0000
    ensures Drop(x, 32) == x / 0x1_0000_0000
  {
    DropEight(x);
    DropStep(x, 8, 0x100);
    DropStep(x, 16, 0x1_0000);
    DropStep(x, 24, 0x100_0000);
  }

  lemma DropStep(x: int, s: nat, p: int)
    requires p in {0x100, 0x1_0000, 0x100_0000} && Drop(x, s) == x / p
    ensures Drop(x, s + 8) == x / (p * 0x100)
  {
    DropAdds(x, s, 8);
    DropEight(x / p);
    if p == 0x100 {
      assert x / 0x100 / 0x100 == x / 0x1_0000;
    } else if p == 0x1_0000 {
      assert x / 0x1_0000 / 0x100 == x / 0x100_0000;
    } else {
      assert x / 0x100_0000 / 0x100 == x / 0x1_0000_0000;
    }
  }

  lemma DropEight(x: int)
    ensures Drop(x, 1) == x / 2 && Drop(x, 2) == x / 4 && Drop(x, 8) == x / 0x100
  {
    assert Drop(x, 1) == x / 2;
    assert Drop(x, 2) == Drop(x / 2, 1) == x / 4;
    DropAdds(x, 2, 2);
    assert Drop(Drop(x, 2), 2) == x / 16 by { assert Drop(x / 4, 2) == Drop(x / 4 / 2, 1) == x / 16; }
    DropAdds(x, 4, 2);
    assert Drop(x / 16, 2) == x / 64 by { assert Drop(x / 16, 2) == Drop(x / 16 / 2, 1); }
    DropAdds(x, 6, 2);
    assert Drop(x / 64, 2) == x / 256 by { assert Drop(x / 64, 2) == Drop(x / 64 / 2, 1); }
  }

  function ShiftLeft(w: Word, s: nat): Word {
    Wrap(Scale(w, s))
  }

  function ShiftRightLogical(w: Word, s: nat): Word {
    Drop(w, s)
  }

  function ShiftRightArith(w: Word, s: nat): Word {
    Wrap(Drop(Signed(w), s))
  }

  // ----- arithmetic meaning of masks -----

  /** The lowest `k` binary digits of `x`. */
  function Low(x: nat, k: nat): (r: nat)
    ensures r <= x
  {
    if k == 0 then 0 else 2 * Low(x / 2, k - 1) + x % 2
  }

  lemma LowValues(x: nat)
    ensures Low(x, 1) == x % 2 && Low(x, 2) == x % 4 && Low(x, 8) == x % 0x100
    ensures Low(x, 16) == x % 0x1_0000 && Low(x, 32) == x % 0x1_0000_0000
  {
    assert Low(x, 1) == x % 2;
    assert Low(x, 2) == x % 4 by { LowDrop(x, 2); DropValues(x); ScaleValues(x / 4); }
    assert Low(x, 8) == x % 0x100 by { LowDrop(x, 8); DropValues(x); ScaleValues(x / 0x100); }
    assert Low(x, 16) == x % 0x1_0000 by { LowDrop(x, 16); DropValues(x); ScaleValues(x / 0x1_0000); }
    LowWord(x);
  }

  lemma LowWord(x: nat)
    ensures Low(x, 32) == x % 0x1_0000_0000
  {
    LowDrop(x, 32);
    DropValues(x);
    ScaleValues(x / 0x1_0000_0000);
  }

  lemma {:induction false} LowDrop(x: nat, k: nat)
    ensures x == Scale(Drop(x, k), k) + Low(x, k)
    decreases k
  {
    if k != 0 {
      LowDrop(x / 2, k - 1);
    }
  }

  lemma {:induction false} AndMask(x: nat, k: nat)
    ensures And(x, Pow2(k) - 1) == Low(x, k)
  {
    if k != 0 {
      AndMask(x / 2, k - 1);
      var p := Pow2(k - 1);
      assert (2 * p - 1) / 2 == p - 1;
      AndUnfold(x, 2 * p - 1);
    }
  }

  lemma AndTwo(x: nat)
    ensures And(x, 2) == x % 4 - x % 2
  {
    assert And(x / 2, 1) == x / 2 % 2;
  }

  lemma {:induction false} AndComplement(x: nat, m: nat, k: nat)
    requires x < Pow2(k) && m < Pow2(k)
    ensures And(x, Pow2(k) - 1 - m) == x - And(x, m)
  {
    if k != 0 {
      var p := Pow2(k - 1);
      AndComplement(x / 2, m / 2, k - 1);
      assert (2 * p - 1 - m) / 2 == p - 1 - m / 2;
      AndUnfold(x, m);
      AndUnfold(x, 2 * p - 1 - m);
    }
  }

  lemma AndUnfold(a: nat, b: nat)
    ensures And(a, b) == 2 * And(a / 2, b / 2) + (if a % 2 == 1 && b % 2 == 1 then 1 else 0)
  {}

  lemma {:induction false} XorOnes(x: nat, k: nat)
    requires x < Pow2(k)
    ensures Xor(x, Pow2(k) - 1) == Pow2(k) - 1 - x
  {
    if x != 0 {
      XorOnes(x / 2, k - 1);
    }
  }

  lemma EvenAnd(x: nat, t: nat)
    ensures And(x, 2 * t) == 2 * And(x / 2, t)
  {
    AndUnfold(x, 2 * t);
  }

  lemma {:induction false} AndScaled(x: nat, m: nat, b: nat)
    ensures And(x, Scale(m, b)) == Scale(And(Drop(x, b), m), b)
  {
    if b != 0 {
      var t := Scale(m, b - 1);
      EvenAnd(x, t);
      AndScaled(x / 2, m, b - 1);
    }
  }

  lemma {:induction false} DropMinusScaled(x: int, f: nat, b: nat)
    ensures Drop(x - Scale(f, b), b) == Drop(x, b) - f
    decreases b
  {
    if b != 0 {
      DropMinusScaled(x / 2, f, b - 1);
      assert (x - 2 * Scale(f, b - 1)) / 2 == x / 2 - Scale(f, b - 1);
    }
  }

  lemma {:induction false} ScaleBound(x: nat, b: nat, k: nat)
    requires x < Pow2(k)
    ensures Scale(x, b) < Pow2(k + b)
  {
    if b != 0 {
      ScaleBound(x, b - 1, k);
    }
  }

  lemma {:induction false} OrDisjoint(a: nat, b: nat)
    requires And(a, b) == 0
    ensures Or(a, b) == a + b
  {
    if a != 0 && b != 0 {
      OrDisjoint(a / 2, b / 2);
    }
  }

  lemma {:induction false} AndCleared(d: nat, v: nat, k: nat)
    requires v < Pow2(k)
    ensures And(d - Low(d, k), v) == 0
  {
    if k != 0 {
      AndCleared(d / 2, v / 2, k - 1);
      var y := d / 2 - Low(d / 2, k - 1);
      assert d - Low(d, k) == 2 * y;
      AndUnfold(2 * y, v);
    }
  }

  /** The value that `(w & ~(mask << b)) | (v << b)` denotes: the `k`-bit field at bit `b` is replaced by
      `v` and every other digit stays. */
  function WithField(w: nat, b: nat, k: nat, v: nat): int {
    w - Scale(Low(Drop(w, b), k), b) + Scale(v, b)
  }

  lemma FieldInsert(w: Word, mask: Word, b: nat, k: nat, v: Word)
    requires b + k <= 32 && mask == Pow2(k) - 1 && v <= mask
    ensures WordOr(WordAnd(w, WordXor(ShiftLeft(mask, b), 0xFFFF_FFFF)), ShiftLeft(v, b)) == WithField(w, b, k, v)
  {
    var c := WordAnd(w, WordXor(ShiftLeft(mask, b), 0xFFFF_FFFF));
    FieldClear(w, mask, b, k);
    ShiftLeftSmall(v, b, k);
    assert And(Drop(c, b), v) == 0 by {
      DropMinusScaled(w, Low(Drop(w, b), k), b);
      AndCleared(Drop(w, b), v, k);
    }
    assert Or(c, Scale(v, b)) == c + Scale(v, b) by { OrScaled(c, v, b); }
  }

  lemma FieldClear(w: Word, mask: Word, b: nat, k: nat)
    requires b + k <= 32 && mask == Pow2(k) - 1
    ensures WordAnd(w, WordXor(ShiftLeft(mask, b), 0xFFFF_FFFF)) == w - Scale(Low(Drop(w, b), k), b)
  {
    ShiftLeftSmall(mask, b, k);
    var m := Scale(mask, b);
    AndNot(w, m);
    assert And(w, m) == Scale(Low(Drop(w, b), k), b) by {
      AndScaled(w, mask, b);
      AndMask(Drop(w, b), k);
    }
  }

  /** Masking with a complement removes exactly the digits that the mask has in common with `w`. */
  lemma AndNot(w: Word, m: Word)
    ensures WordAnd(w, WordXor(m, 0xFFFF_FFFF)) == w - And(w, m)
  {
    Pow2Values();
    XorOnes(m, 32);
    AndComplement(w, m, 32);
  }

  /** Or-ing in digits where `c` has zeros adds them. */
  lemma OrScaled(c: nat, v: nat, b: nat)
    requires And(Drop(c, b), v) == 0
    ensures Or(c, Scale(v, b)) == c + Scale(v, b)
  {
    AndScaled(c, v, b);
    ScaleZero(b);
    OrDisjoint(c, Scale(v, b));
  }

  lemma ShiftLeftSmall(v: Word, b: nat, k: nat)
    requires b + k <= 32 && v < Pow2(k)
    ensures ShiftLeft(v, b) == Scale(v, b)
  {
    Pow2Values();
    Pow2Monotone(k + b, 32);
    ScaleBound(v, b, k);
  }

  lemma {:induction false} ScaleZero(b: nat)
    ensures Scale(0, b) == 0
  {
    if b != 0 {
      ScaleZero(b - 1);
    }
  }

  lemma {:induction false} Pow2Monotone(a: nat, b: nat)
    requires a <= b
    ensures Pow2(a) <= Pow2(b)
  {
    if a < b {
      Pow2Monotone(a, b - 1);
    }
  }
}
