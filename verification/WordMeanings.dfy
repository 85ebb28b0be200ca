/** What the word operations mean, digit by digit: the machines of the translator and the runtime share them. */
module WordMeanings {
  import opened Words

  /** The binary digit of weight `2^k`, in two's complement. */
  predicate Bit(x: int, k: nat) {
    Drop(x, k) % 2 == 1
  }

  // ----- and, or, exclusive or -----

  lemma {:induction false} AndDigits(a: nat, b: nat, k: nat)
    ensures Bit(And(a, b), k) <==> Bit(a, k) && Bit(b, k)
    decreases k
  {
    AndUnfold(a, b);
    if k > 0 {
      AndDigits(a / 2, b / 2, k - 1);
      hide And;
    }
  }

  lemma OrDigit(a: nat, b: nat)
    ensures Or(a, b) == 2 * Or(a / 2, b / 2) + (if a % 2 == 1 || b % 2 == 1 then 1 else 0)
  {}

  lemma {:induction false} OrDigits(a: nat, b: nat, k: nat)
    ensures Bit(Or(a, b), k) <==> Bit(a, k) || Bit(b, k)
    decreases k
  {
    OrDigit(a, b);
    if k > 0 {
      OrDigits(a / 2, b / 2, k - 1);
      hide Or;
    }
  }

  lemma XorDigit(a: nat, b: nat)
    ensures Xor(a, b) == 2 * Xor(a / 2, b / 2) + (if a % 2 != b % 2 then 1 else 0)
  {}

  lemma {:induction false} XorDigits(a: nat, b: nat, k: nat)
    ensures Bit(Xor(a, b), k) <==> Bit(a, k) != Bit(b, k)
    decreases k
  {
    XorDigit(a, b);
    if k > 0 {
      XorDigits(a / 2, b / 2, k - 1);
      hide Xor;
    }
  }

  /** Each digit of the three word operations is the operation on the digits. */
  lemma BitwiseDigits(a: Word, b: Word, k: nat)
    ensures Bit(WordAnd(a, b), k) <==> Bit(a, k) && Bit(b, k)
    ensures Bit(WordOr(a, b), k) <==> Bit(a, k) || Bit(b, k)
    ensures Bit(WordXor(a, b), k) <==> Bit(a, k) != Bit(b, k)
  {
    AndDigits(a, b, k);
    OrDigits(a, b, k);
    XorDigits(a, b, k);
    hide And, Or, Xor, Drop;
  }

  /** Numbers below `2^n` with the same digits are the same. */
  lemma {:induction false} DigitsDetermine(x: nat, y: nat, n: nat)
    requires x < Pow2(n) && y < Pow2(n) && forall k: nat :: k < n ==> (Bit(x, k) <==> Bit(y, k))
    ensures x == y
    decreases n
  {
    if n > 0 {
      assert Bit(x, 0) <==> Bit(y, 0);
      forall k: nat | k < n - 1 ensures Bit(x / 2, k) <==> Bit(y / 2, k) {
        assert Bit(x, k + 1) <==> Bit(y, k + 1);
      }
      DigitsDetermine(x / 2, y / 2, n - 1);
    }
  }

  // ----- shifts -----

  /** `q * 2^n`, for any sign. */
  function Times(q: int, n: nat): int {
    if n == 0 then q else 2 * Times(q, n - 1)
  }

  lemma TimesEight(q: int)
    ensures Times(q, 8) == 0x100 * q
  {
    assert Times(q, 1) == 2 * q;
    assert Times(q, 2) == 4 * q;
    assert Times(q, 3) == 8 * q;
    assert Times(q, 4) == 16 * q;
    assert Times(q, 6) == 64 * q;
  }

  lemma {:induction false} TimesAdds(q: int, n: nat, k: nat)
    ensures Times(Times(q, n), k) == Times(q, n + k)
    decreases k
  {
    if k > 0 {
      TimesAdds(q, n, k - 1);
    }
  }

  lemma TimesWord(q: int)
    ensures Times(q, 32) == 0x1_0000_0000 * q
  {
    TimesEight(q);
    TimesEight(0x100 * q);
    TimesEight(0x1_0000 * q);
    TimesEight(0x100_0000 * q);
    TimesAdds(q, 8, 8);
    TimesAdds(q, 16, 8);
    TimesAdds(q, 24, 8);
    hide Times;
  }

  lemma {:induction false} HigherDigits(x: int, q: int, n: nat, k: nat)
    requires k < n
    ensures Bit(x + Times(q, n), k) <==> Bit(x, k)
    decreases k
  {
    var m := Times(q, n - 1);
    assert x + Times(q, n) == x + 2 * m;
    if k > 0 {
      assert (x + 2 * m) / 2 == x / 2 + m;
      HigherDigits(x / 2, q, n - 1, k - 1);
    }
  }

  /** Wrapping to 32 bits keeps the lower 32 digits. */
  lemma WrapDigits(x: int, k: nat)
    requires k < 32
    ensures Bit(Wrap(x), k) <==> Bit(x, k)
  {
    var q := x / 0x1_0000_0000;
    TimesWord(-q);
    HigherDigits(x, -q, 32, k);
    hide Bit, Times;
    assert x + 0x1_0000_0000 * -q == Wrap(x);
  }

  lemma {:induction false} ScaledDigits(x: nat, s: nat, k: nat)
    ensures Bit(Scale(x, s), k) <==> k >= s && Bit(x, k - s)
    decreases s
  {
    if s > 0 {
      var y := Scale(x, s - 1);
      assert Scale(x, s) % 2 == 0 && Scale(x, s) / 2 == y;
      if k > 0 {
        ScaledDigits(x, s - 1, k - 1);
        assert Bit(Scale(x, s), k) <==> Bit(y, k - 1);
      }
      hide Scale;
    }
  }

  lemma {:induction false} DroppedDigits(x: int, s: nat, k: nat)
    ensures Bit(Drop(x, s), k) <==> Bit(x, s + k)
  {
    DropAdds(x, s, k);
    hide Drop;
  }

  lemma {:induction false} SignDigits(x: int, k: nat)
    requires 0 - Pow2(k) <= x < Pow2(k)
    ensures forall i: nat :: i >= k ==> (Bit(x, i) <==> x < 0)
    decreases k
  {
    forall i: nat | i >= k ensures Bit(x, i) <==> x < 0 {
      SignDigit(x, k, i);
    }
  }

  lemma {:induction false} SignDigit(x: int, k: nat, i: nat)
    requires 0 - Pow2(k) <= x < Pow2(k) && i >= k
    ensures Bit(x, i) <==> x < 0
    decreases i
  {
    if i > 0 {
      if k > 0 {
        SignDigit(x / 2, k - 1, i - 1);
      } else {
        SignDigit(x / 2, 0, i - 1);
      }
    }
  }

  /** A left shift moves the digits up and fills in zeros; a logical right shift moves them down and fills in
      zeros; an arithmetic one fills in the sign. */
  lemma ShiftDigits(w: Word, s: nat, k: nat)
    requires s < 32 && k < 32
    ensures Bit(ShiftLeft(w, s), k) <==> k >= s && Bit(w, k - s)
    ensures Bit(ShiftRightLogical(w, s), k) <==> k + s < 32 && Bit(w, k + s)
    ensures Bit(ShiftRightArith(w, s), k) <==> Bit(w, if k + s < 32 then k + s else 31)
  {
    WrapDigits(Scale(w, s), k);
    ScaledDigits(w, s, k);
    DroppedDigits(w, s, k);
    DroppedDigits(Signed(w), s, k);
    WrapDigits(Drop(Signed(w), s), k);
    WordSigns(w, k + s);
    hide Bit, Scale, Drop, Wrap;
  }

  lemma WordSigns(w: Word, i: nat)
    ensures i >= 32 ==> !Bit(w, i)
    ensures Bit(Signed(w), i) <==> Bit(w, if i < 32 then i else 31)
  {
    Pow2Values();
    assert Pow2(31) == 0x8000_0000;
    SignDigits(Signed(w), 31);
    SignDigits(w, 32);
    if i < 32 {
      SignedDigits(w, i);
    }
    SignedDigits(w, 31);
    hide Bit, Pow2;
  }

  lemma SignedDigits(w: Word, i: nat)
    requires i < 32
    ensures Bit(Signed(w), i) <==> Bit(w, i)
  {
    WrapDigits(Signed(w), i);
    hide Bit;
    assert Wrap(Signed(w)) == w;
  }

  // ----- division -----

  /** Quotient and remainder round toward zero: the remainder is smaller than the divisor and has the sign of the
      dividend. */
  lemma DivisionRounds(a: int, b: int)
    requires b != 0
    ensures a == TruncDiv(a, b) * b + TruncMod(a, b)
    ensures 0 - Size(b) < TruncMod(a, b) < Size(b)
    ensures TruncMod(a, b) == 0 || (TruncMod(a, b) < 0 <==> a < 0)
  {
    var n: int, d: int := Size(a), Size(b);
    var q: int := n / d;
    Euclid(n, d);
    Negations(q, b);
  }

  lemma Euclid(n: int, d: int)
    requires d > 0
    ensures n == n / d * d + n % d && 0 <= n % d < d
  {}

  function Size(x: int): nat {
    if x < 0 then -x else x
  }

  lemma Negations(q: int, b: int)
    ensures -q * b == -(q * b) && q * -b == -(q * b)
  {}

  /** Quotient and remainder are the only numbers with these properties. */
  lemma DivisionUnique(a: int, b: int, q: int, m: int)
    requires b != 0 && a == q * b + m && 0 - Size(b) < m < Size(b) && (m == 0 || (m < 0 <==> a < 0))
    ensures q == TruncDiv(a, b) && m == TruncMod(a, b)
  {
    DivisionRounds(a, b);
    var q1, m1 := TruncDiv(a, b), TruncMod(a, b);
    Distributes(q - q1, q, q1, b);
    if q > q1 {
      AtLeast(q - q1, b);
    } else if q < q1 {
      AtLeast(q1 - q, b);
      Negations(q - q1, b);
    }
  }

  lemma Distributes(d: int, q: int, q1: int, b: int)
    requires d == q - q1
    ensures d * b == q * b - q1 * b
  {}

  lemma AtLeast(k: int, b: int)
    requires k >= 1
    ensures Size(k * b) >= Size(b)
  {
    if b >= 0 {
      assert k * b == b + (k - 1) * b;
    } else {
      assert k * b == b + (k - 1) * b;
    }
  }
}
