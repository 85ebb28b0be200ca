/** libs/src/libc/vsnprintf.c and stdlib.c: the integer conversions of printf, and strtol and strtoul, which
    read them back (sections 7.19.6.5 and 7.20.1.4 of ISO C99). */
module Printf {
  import opened Words
  import opened Options

  // ----- digits -----

  /** The conversions that print integers. */
  predicate IsConversion(c: char) {
    c in "bopxXdiu"
  }

  function Base(conv: char): nat
    requires IsConversion(conv)
  {
    if conv == 'b' then 2 else if conv == 'o' then 8 else if conv in "pxX" then 16 else 10
  }

  /** The digit tables. */
  function DigitTable(conv: char): string
    requires IsConversion(conv)
    ensures |DigitTable(conv)| >= Base(conv)
  {
    if conv == 'b' then "01" else if conv == 'o' then "012345678"
    else if conv == 'X' then "0123456789ABCDEF" else if conv in "px" then "0123456789abcdef" else "0123456789"
  }

  /** A number's digits, most significant first. */
  function Digits(conv: char, u: nat): (s: string)
    requires IsConversion(conv)
    ensures |s| >= 1
  {
    if u < Base(conv) then [DigitTable(conv)[u]]
    else Digits(conv, u / Base(conv)) + [DigitTable(conv)[u % Base(conv)]]
  }

  /** What a digit stands for, in either case; -1 for any other character. */
  function DigitOf(c: char): int {
    if '0' <= c <= '9' then c as int - '0' as int
    else if 'a' <= c <= 'z' then c as int - 'a' as int + 10
    else if 'A' <= c <= 'Z' then c as int - 'A' as int + 10
    else -1
  }

  function Multiple(v: int, base: nat): int {
    if base == 2 then 2 * v else if base == 8 then 8 * v else if base == 10 then 10 * v else 16 * v
  }

  /** The number that a numeral names. */
  function Named(s: string, base: nat): int {
    if s == "" then 0 else Multiple(Named(s[..|s| - 1], base), base) + DigitOf(s[|s| - 1])
  }

  /** A numeral: digits below the base, in one case, without leading zeros. */
  predicate IsNumeral(s: string, base: nat, upper: bool) {
    s != "" && (forall i :: 0 <= i < |s| ==> 0 <= DigitOf(s[i]) < base && (if upper then s[i] <= 'Z' else !('A' <= s[i] <= 'Z'))) &&
    (s[0] == '0' ==> |s| == 1)
  }

  lemma TableNumeral(conv: char, k: nat)
    requires IsConversion(conv) && k < Base(conv)
    ensures DigitOf(DigitTable(conv)[k]) == k
    ensures if conv == 'X' then DigitTable(conv)[k] <= 'Z' else !('A' <= DigitTable(conv)[k] <= 'Z')
    ensures DigitTable(conv)[k] == '0' <==> k == 0
  {}

  /** What each conversion prints for a number is its numeral: binary for b, octal for o, lower-case hexadecimal for x
      and p, upper-case for X, decimal for d, i and u. */
  lemma {:induction false} DigitsNameNumber(conv: char, u: nat)
    requires IsConversion(conv)
    ensures var base := if conv == 'b' then 2 else if conv == 'o' then 8 else if conv in {'x', 'X', 'p'} then 16 else 10;
            Base(conv) == base && IsNumeral(Digits(conv, u), base, conv == 'X') && Named(Digits(conv, u), base) == u
    ensures Digits(conv, u)[0] == '0' <==> u == 0
    decreases u
  {
    hide *;
    var base := Base(conv);
    BaseIs(conv);
    TableNumeral(conv, u % base);
    DigitsCut(conv, u);
    if u >= base {
      SmallerQuotient(u, base);
      DigitsNameNumber(conv, u / base);
      QuotientBack(u, base);
      NumeralMore(Digits(conv, u / base), DigitTable(conv)[u % base], base, conv == 'X');
    } else {
      SmallRemainder(u, base);
      OneDigit(DigitTable(conv)[u], base, conv == 'X');
    }
  }

  lemma BaseIs(conv: char)
    requires IsConversion(conv)
    ensures Base(conv) == if conv == 'b' then 2 else if conv == 'o' then 8 else if conv in {'x', 'X', 'p'} then 16 else 10
  {}

  lemma SmallRemainder(u: nat, base: nat)
    requires u < base
    ensures u % base == u
  {}

  lemma DigitsCut(conv: char, u: nat)
    requires IsConversion(conv)
    ensures Digits(conv, u) ==
            if u < Base(conv) then [DigitTable(conv)[u]] else Digits(conv, u / Base(conv)) + [DigitTable(conv)[u % Base(conv)]]
  {
    hide DigitTable;
  }

  lemma OneDigit(c: char, base: nat, upper: bool)
    requires 0 <= DigitOf(c) < base && if upper then c <= 'Z' else !('A' <= c <= 'Z')
    ensures IsNumeral([c], base, upper) && Named([c], base) == DigitOf(c)
  {
    assert [c][..0] == "";
    hide DigitOf;
  }

  lemma NumeralMore(front: string, c: char, base: nat, upper: bool)
    requires IsNumeral(front, base, upper) && front[0] != '0'
    requires 0 <= DigitOf(c) < base && if upper then c <= 'Z' else !('A' <= c <= 'Z')
    ensures IsNumeral(front + [c], base, upper) && (front + [c])[0] == front[0]
    ensures Named(front + [c], base) == Multiple(Named(front, base), base) + DigitOf(c)
  {
    assert (front + [c])[..|front|] == front;
    hide DigitOf, Multiple;
  }

  lemma SmallerQuotient(u: nat, base: nat)
    requires base in {2, 8, 10, 16} && u >= base
    ensures 0 < u / base < u
  {}

  lemma QuotientBack(u: nat, base: nat)
    requires base in {2, 8, 10, 16}
    ensures Multiple(u / base, base) + u % base == u
  {}

  // ----- the printed form -----

  /** The flags, width, precision (-1 for none) and conversion of a directive. */
  datatype Directive = Directive(left: bool, plus: bool, space: bool, zero: bool, alternate: bool,
                                 width: int, precision: int, conv: char)

  predicate IsSigned(conv: char) {
    conv == 'd' || conv == 'i'
  }

  function Fill(c: char, n: int): (s: string)
    ensures |s| == if n > 0 then n else 0
    ensures forall i :: 0 <= i < |s| ==> s[i] == c
  {
    if n <= 0 then [] else Fill(c, n - 1) + [c]
  }

  function Magnitude(d: Directive, u: Word): Word {
    if IsSigned(d.conv) && Signed(u) < 0 then Wrap(-Signed(u)) else u
  }

  function SignText(d: Directive, u: Word): string {
    if !IsSigned(d.conv) then ""
    else if d.plus && Signed(u) >= 0 then "+"
    else if d.space && Signed(u) >= 0 then " "
    else if Signed(u) < 0 then "-" else ""
  }

  function PrefixText(d: Directive, u: Word): string
    requires IsConversion(d.conv)
  {
    if !d.alternate || u == 0 then ""
    else if Base(d.conv) == 2 then "%" else if Base(d.conv) == 8 then "0" else if Base(d.conv) == 16 then "0x" else ""
  }

  /** What the size of the number counts for the prefix: two for base two, though one character is printed. */
  function PrefixSize(d: Directive, u: Word): int
    requires IsConversion(d.conv)
  {
    if !d.alternate || u == 0 then 0
    else if Base(d.conv) == 8 then 1 else if Base(d.conv) == 16 || Base(d.conv) == 2 then 2 else 0
  }

  function PrintedSize(d: Directive, u: Word): int
    requires IsConversion(d.conv)
  {
    var n := |Digits(d.conv, Magnitude(d, u))|;
    (if n > d.precision then n else d.precision) + |SignText(d, u)| + PrefixSize(d, u)
  }

  /** Blanks on the left, when the width asks for them. */
  function LeftBlanks(d: Directive, u: Word): int
    requires IsConversion(d.conv)
  {
    if !d.left && d.width > PrintedSize(d, u) && !d.zero then d.width - PrintedSize(d, u) else 0
  }

  /** The size after zero-padding, without sign and prefix. */
  function PaddedSize(d: Directive, u: Word): int
    requires IsConversion(d.conv)
  {
    (if !d.left && d.width > PrintedSize(d, u) && d.zero then d.width else PrintedSize(d, u))
    - |SignText(d, u)| - |PrefixText(d, u)|
  }

  /** Everything a directive prints for a number. */
  function IntegerText(d: Directive, u: Word): string
    requires IsConversion(d.conv)
  {
    var ds := Digits(d.conv, Magnitude(d, u));
    Fill(' ', LeftBlanks(d, u)) + SignText(d, u) + PrefixText(d, u) + Fill('0', PaddedSize(d, u) - |ds|) + ds
    + RightText(d, u)
  }

  function RightText(d: Directive, u: Word): string
    requires IsConversion(d.conv)
  {
    if d.left then Fill(' ', d.width - PaddedSize(d, u) - |SignText(d, u)|) else ""
  }

  // ----- the output buffer -----

  /** The text written so far and the characters that still fit before the terminator. */
  class Out {
    var text: string
    var size: nat

    constructor (size: nat)
      ensures this.size == size && text == ""
    {
      this.size := size;
      text := "";
    }

    /** `PUTCH`: false when there is no room, which ends the output. */
    method PutCh(c: char) returns (ok: bool)
      modifies this
      ensures Wrote(old(text), old(size), [c], text, size, ok)
    {
      if size == 0 {
        return false;
      }
      text := text + [c];
      size := size - 1;
      return true;
    }

    /** `PUTSTR`. */
    method PutStr(s: string) returns (ok: bool)
      modifies this
      ensures Wrote(old(text), old(size), s, text, size, ok)
    {
      var i := 0;
      while i < |s|
        invariant 0 <= i <= |s| && Wrote(old(text), old(size), s[..i], text, size, true)
      {
        ghost var t1, n1 := text, size;
        ok := PutCh(s[i]);
        WroteMore(old(text), old(size), s[..i], t1, n1, [s[i]], text, size, ok);
        assert s[..i] + [s[i]] == s[..i + 1];
        if !ok {
          WroteCut(old(text), old(size), s[..i + 1], text, size, s[i + 1..]);
          assert s[..i + 1] + s[i + 1..] == s;
          return;
        }
        i := i + 1;
      }
      assert s[..i] == s;
      return true;
    }

    /** A character `n` times. */
    method Pad(c: char, n: int) returns (ok: bool)
      modifies this
      ensures Wrote(old(text), old(size), Fill(c, n), text, size, ok)
    {
      var i := 0;
      while i < n
        invariant 0 <= i && (if n > 0 then i <= n else i == 0) && Wrote(old(text), old(size), Fill(c, i), text, size, true)
      {
        ghost var t1, n1 := text, size;
        ok := PutCh(c);
        WroteMore(old(text), old(size), Fill(c, i), t1, n1, [c], text, size, ok);
        if !ok {
          FillSplit(c, i + 1, n - i - 1);
          WroteCut(old(text), old(size), Fill(c, i + 1), text, size, Fill(c, n - i - 1));
          return;
        }
        i := i + 1;
      }
      assert Fill(c, i) == Fill(c, n);
      return true;
    }

    /** The reversed digits in `convert`, printed from the last to the first. */
    method PutReversed(convert: seq<char>, ghost s: string) returns (ok: bool)
      requires |convert| == |s| && forall i :: 0 <= i < |s| ==> convert[i] == s[|s| - 1 - i]
      modifies this
      ensures Wrote(old(text), old(size), s, text, size, ok)
    {
      var n := |convert|;
      while n > 0
        invariant 0 <= n <= |s| && Wrote(old(text), old(size), s[..|s| - n], text, size, true)
      {
        ghost var t1, n1, k := text, size, |s| - n;
        n := n - 1;
        ok := PutCh(convert[n]);
        assert convert[n] == s[k];
        WroteMore(old(text), old(size), s[..k], t1, n1, [s[k]], text, size, ok);
        assert s[..k] + [s[k]] == s[..k + 1];
        if !ok {
          WroteCut(old(text), old(size), s[..k + 1], text, size, s[k + 1..]);
          assert s[..k + 1] + s[k + 1..] == s;
          return;
        }
      }
      assert s[..|s| - 0] == s;
      return true;
    }
  }

  function Fitting(s: string, size: nat): string {
    if |s| <= size then s else s[..size]
  }

  /** `s` was written as far as it fits. */
  ghost predicate Wrote(text: string, size: nat, s: string, text': string, size': nat, ok: bool) {
    text' == text + Fitting(s, size) && size' == size - |Fitting(s, size)| && ok == (|s| <= size)
  }

  /** Two parts written one after the other. */
  lemma WroteMore(t0: string, n0: nat, s: string, t1: string, n1: nat, r: string, t2: string, n2: nat, ok: bool)
    requires Wrote(t0, n0, s, t1, n1, true) && Wrote(t1, n1, r, t2, n2, ok)
    ensures Wrote(t0, n0, s + r, t2, n2, ok)
  {
    if |s + r| > n0 {
      assert (s + r)[..n0] == s + r[..n1];
    }
  }

  /** Once the output is full, what follows does not matter. */
  lemma WroteCut(t0: string, n0: nat, s: string, t1: string, n1: nat, r: string)
    requires Wrote(t0, n0, s, t1, n1, false)
    ensures Wrote(t0, n0, s + r, t1, n1, false)
  {
    assert (s + r)[..n0] == s[..n0];
  }

  lemma {:induction false} FillSplit(c: char, i: nat, n: nat)
    ensures Fill(c, i + n) == Fill(c, i) + Fill(c, n)
    decreases n
  {
    if n > 0 {
      FillSplit(c, i, n - 1);
    }
  }

  // ----- printing an integer -----

  /** The `do` loop that fills `convert`. */
  method Convert(conv: char, u: Word) returns (convert: seq<char>)
    requires IsConversion(conv)
    ensures var s := Digits(conv, u);
            |convert| == |s| && forall i :: 0 <= i < |s| ==> convert[i] == s[|s| - 1 - i]
  {
    hide DigitTable, Digits;
    var base, digits, uval := Base(conv), DigitTable(conv), u;
    ghost var all := Digits(conv, u);
    convert := [];
    var first := true;
    while first || uval > 0
      invariant !first ==> |convert| >= 1
      invariant all == (if first || uval > 0 then Digits(conv, uval) else "") + Reversed(convert)
      decreases first, uval
    {
      DigitsStep(conv, uval);
      if uval > 0 {
        DigitSmaller(uval, base);
      }
      ReversedMore(convert, digits[uval % base]);
      Regroup(if uval / base > 0 then Digits(conv, uval / base) else "", [digits[uval % base]], Reversed(convert));
      convert := convert + [digits[uval % base]];
      uval := uval / base;
      first := false;
    }
  }

  lemma Regroup(a: string, b: string, c: string)
    ensures (a + b) + c == a + (b + c)
  {}

  function Reversed(s: seq<char>): string {
    seq(|s|, i requires 0 <= i < |s| => s[|s| - 1 - i])
  }

  lemma ReversedMore(s: seq<char>, c: char)
    ensures Reversed(s + [c]) == [c] + Reversed(s)
  {}

  lemma DigitSmaller(u: nat, base: nat)
    requires u > 0 && base >= 2
    ensures u / base < u
  {}

  lemma DigitsStep(conv: char, u: nat)
    requires IsConversion(conv)
    ensures Digits(conv, u) ==
            (if u / Base(conv) > 0 then Digits(conv, u / Base(conv)) else "") + [DigitTable(conv)[u % Base(conv)]]
  {
    if u < Base(conv) {
      assert u / Base(conv) == 0 && u % Base(conv) == u;
    }
    hide DigitTable;
  }

  /** `Print_signed` and `Print_unsigned`. */
  method PrintInteger(out: Out, d: Directive, u: Word) returns (ok: bool)
    requires IsConversion(d.conv)
    modifies out
    ensures Wrote(old(out.text), old(out.size), IntegerText(d, u), out.text, out.size, ok)
  {
    hide Fill, Digits, Wrote, DigitTable, Fitting;
    var base := Base(d.conv);
    var signch: string := "";
    var uval := u;
    if IsSigned(d.conv) {
      if d.plus && Signed(uval) >= 0 {
        signch := "+";
      } else if d.space && Signed(uval) >= 0 {
        signch := " ";
      } else if Signed(uval) < 0 {
        signch := "-";
        uval := Wrap(-Signed(uval));
      }
    }
    assert signch == SignText(d, u) && uval == Magnitude(d, u);
    var convert := Convert(d.conv, uval);
    ghost var ds := Digits(d.conv, uval);
    hide Magnitude, SignText;
    var numpr := if |convert| > d.precision then |convert| else d.precision;
    numpr := numpr + |signch|;
    if d.alternate && u != 0 {
      if base == 8 {
        numpr := numpr + 1;
      } else if base == 16 || base == 2 {
        numpr := numpr + 2;
      }
    }
    assert numpr == PrintedSize(d, u);
    var blanks := 0;
    if !d.left && d.width > numpr {
      if d.zero {
        numpr := d.width;
      } else {
        blanks := d.width - numpr;
      }
    }
    var prefix := PrefixOf(d, u);
    numpr := numpr - |signch| - |prefix|;
    assert blanks == LeftBlanks(d, u) && numpr == PaddedSize(d, u);
    var right := if d.left then d.width - numpr - |signch| else 0;
    NothingRight(d, u, right);
    hide PrintedSize, PaddedSize, LeftBlanks, PrefixText, RightText;
    ok := PrintParts(out, blanks, signch, prefix, numpr - |convert|, convert, ds, right);
  }

  method PrefixOf(d: Directive, u: Word) returns (prefix: string)
    requires IsConversion(d.conv)
    ensures prefix == PrefixText(d, u)
  {
    prefix := "";
    if d.alternate && u != 0 {
      if Base(d.conv) == 2 {
        prefix := "%";
      } else if Base(d.conv) == 8 {
        prefix := "0";
      } else if Base(d.conv) == 16 {
        prefix := "0x";
      }
    }
  }

  lemma NothingRight(d: Directive, u: Word, right: int)
    requires IsConversion(d.conv) && right == if d.left then d.width - PaddedSize(d, u) - |SignText(d, u)| else 0
    ensures RightText(d, u) == Fill(' ', right)
  {
    hide PaddedSize, SignText;
  }

  /** The six parts in order; the first that does not fit ends the output. */
  method PrintParts(out: Out, blanks: int, signch: string, prefix: string, zeros: int, convert: seq<char>, ghost ds: string, right: int)
    returns (ok: bool)
    requires |convert| == |ds| && forall i :: 0 <= i < |ds| ==> convert[i] == ds[|ds| - 1 - i]
    modifies out
    ensures Wrote(old(out.text), old(out.size), Fill(' ', blanks) + signch + prefix + Fill('0', zeros) + ds + Fill(' ', right),
                  out.text, out.size, ok)
  {
    hide Fill, Wrote;
    ghost var t0, n0 := out.text, out.size;
    ghost var p1 := Fill(' ', blanks);
    ghost var p2 := p1 + signch;
    ghost var p3 := p2 + prefix;
    ghost var p4 := p3 + Fill('0', zeros);
    ghost var p5 := p4 + ds;
    ok := out.Pad(' ', blanks);
    ok := Follow(out, t0, n0, p1, signch, ok);
    ok := Follow(out, t0, n0, p2, prefix, ok);
    if ok {
      ghost var t1, n1 := out.text, out.size;
      ok := out.Pad('0', zeros);
      WroteMore(t0, n0, p3, t1, n1, Fill('0', zeros), out.text, out.size, ok);
    } else {
      WroteCut(t0, n0, p3, out.text, out.size, Fill('0', zeros));
    }
    if ok {
      ghost var t1, n1 := out.text, out.size;
      ok := out.PutReversed(convert, ds);
      WroteMore(t0, n0, p4, t1, n1, ds, out.text, out.size, ok);
    } else {
      WroteCut(t0, n0, p4, out.text, out.size, ds);
    }
    if ok {
      ghost var t1, n1 := out.text, out.size;
      ok := out.Pad(' ', right);
      WroteMore(t0, n0, p5, t1, n1, Fill(' ', right), out.text, out.size, ok);
    } else {
      WroteCut(t0, n0, p5, out.text, out.size, Fill(' ', right));
    }
  }

  /** The next part, unless the output is full. */
  method Follow(out: Out, ghost t0: string, ghost n0: nat, ghost before: string, s: string, go: bool) returns (ok: bool)
    requires Wrote(t0, n0, before, out.text, out.size, go)
    modifies out
    ensures Wrote(t0, n0, before + s, out.text, out.size, ok)
  {
    hide Wrote;
    if go {
      ghost var t1, n1 := out.text, out.size;
      ok := out.PutStr(s);
      WroteMore(t0, n0, before, t1, n1, s, out.text, out.size, ok);
    } else {
      WroteCut(t0, n0, before, out.text, out.size, s);
      ok := false;
    }
  }

  /** The length of what is printed: the width, or the number's own length when that is larger, except that a
      left-adjusted number with a prefix gets as many blanks too many as the prefix is long. */
  lemma TextWidth(d: Directive, u: Word)
    requires IsConversion(d.conv)
    ensures var own, pad := PrintedSize(d, u), if d.left then |PrefixText(d, u)| else 0;
            |IntegerText(d, u)| == own + if d.width + pad > own then d.width + pad - own else 0
  {
    assert PrefixSize(d, u) >= |PrefixText(d, u)|;
    hide PrefixSize, PrefixText, SignText, Magnitude, Digits, Fill;
  }

  // ----- strtoll -----

  predicate IsSpace(c: char) {
    c == ' ' || ('\t' <= c <= '\r')
  }

  predicate IsDigit(c: char) {
    '0' <= c <= '9'
  }

  predicate IsHexDigit(c: char) {
    IsDigit(c) || 'A' <= c <= 'F' || 'a' <= c <= 'f'
  }

  /** The characters that the conversion loop takes. */
  predicate Accepted(c: char, base: nat) {
    IsHexDigit(c) && (base == 10 ==> IsDigit(c))
  }

  function DigitValue(c: char, base: nat): int {
    if 'a' <= c && c as int < 'a' as int + (base as int - 10) then c as int - 'a' as int + 10
    else if 'A' <= c && c as int < 'A' as int + (base as int - 10) then c as int - 'A' as int + 10
    else c as int - '0' as int
  }

  function Times(num: int, base: nat): int {
    if base == 16 then 16 * num else if base == 10 then 10 * num else 0
  }

  /** One round of the loop, in 64 bits. */
  function Accumulate(num: Long, c: char, base: nat): Long {
    WrapLong(WrapLong(Times(num, base)) + DigitValue(c, base))
  }

  /** The number from position `i` on, and where it ends. */
  function Number(s: string, i: nat, base: nat, num: Long): (r: (Long, nat))
    requires i <= |s|
    ensures i <= r.1 <= |s|
    decreases |s| - i
  {
    if i < |s| && Accepted(s[i], base) then Number(s, i + 1, base, Accumulate(num, s[i], base)) else (num, i)
  }

  function SkipSpace(s: string, i: nat): (r: nat)
    requires i <= |s|
    ensures i <= r <= |s|
    decreases |s| - i
  {
    if i < |s| && IsSpace(s[i]) then SkipSpace(s, i + 1) else i
  }

  function SkipSign(s: string, i: nat): (r: nat)
    requires i <= |s|
    ensures i <= r <= |s|
  {
    if i < |s| && (s[i] == '-' || s[i] == '+') then i + 1 else i
  }

  predicate HasPrefix(s: string, i: nat, base: nat)
    requires i <= |s|
  {
    (base == 0 || base == 16) && i + 1 < |s| && s[i] == '0' && s[i + 1] == 'x'
  }

  function Negated(num: Long): Long {
    WrapLong(0 - num as int)
  }

  /** What strtoll makes of a string after its blanks: the value and the position it stores in `endptr`. */
  function ParseAt(s: string, i: nat, base: nat): (Long, nat)
    requires i <= |s|
  {
    var j := SkipSign(s, i);
    var hex := HasPrefix(s, j, base);
    var k := if hex then j + 2 else j;
    var r := Number(s, k, if hex then 16 else base, 0);
    (if i < |s| && s[i] == '-' then Negated(r.0) else r.0, if r.1 == k then 0 else r.1)
  }

  function Parse(s: string, base: nat): (Long, nat) {
    ParseAt(s, SkipSpace(s, 0), base)
  }

  method Strtoll(s: string, base0: nat) returns (num: Long, end: nat)
    requires base0 == 0 || base0 == 10 || base0 == 16
    ensures (num, end) == Parse(s, base0)
  {
    hide Number, Accumulate, SkipSpace, Negated;
    var base := base0;
    var n, negative := 0, false;
    NextSpace(s, 0);
    while n < |s| && IsSpace(s[n])
      invariant n <= |s| && SkipSpace(s, 0) == SkipSpace(s, n)
    {
      NextSpace(s, n);
      n := n + 1;
    }
    NextSpace(s, n);
    if n < |s| && s[n] == '-' {
      negative := true;
      n := n + 1;
    } else if n < |s| && s[n] == '+' {
      n := n + 1;
    }
    if HasPrefix(s, n, base) {
      base := 16;
      n := n + 2;
    }
    var first, isConverted := n, false;
    num := 0;
    while n < |s| && IsHexDigit(s[n])
      invariant first <= n <= |s| && isConverted == (n > first)
      invariant Number(s, first, base, 0) == Number(s, n, base, num)
    {
      NextNumber(s, n, base, num);
      if base == 10 && !IsDigit(s[n]) {
        break;
      }
      num := Accumulate(num, s[n], base);
      n := n + 1;
      isConverted := true;
    }
    NextNumber(s, n, base, num);
    end := if isConverted then n else 0;
    if negative {
      num := Negated(num);
    }
  }

  lemma NextSpace(s: string, i: nat)
    requires i <= |s|
    ensures SkipSpace(s, i) == if i < |s| && IsSpace(s[i]) then SkipSpace(s, i + 1) else i
  {}

  lemma NextNumber(s: string, i: nat, base: nat, num: Long)
    requires i <= |s|
    ensures Number(s, i, base, num) ==
            if i < |s| && Accepted(s[i], base) then Number(s, i + 1, base, Accumulate(num, s[i], base)) else (num, i)
  {
    hide Accumulate;
  }

  function Strtol(s: string, base: nat): Word {
    Wrap(Parse(s, base).0)
  }

  lemma ParseIs(s: string, base: nat)
    ensures Parse(s, base) == ParseAt(s, SkipSpace(s, 0), base)
  {
    hide ParseAt, SkipSpace;
  }

  // ----- round trips -----

  /** The value of some digits, without any bound. */
  function Value(s: string, base: nat): int {
    if s == [] then 0 else Times(Value(s[..|s| - 1], base), base) + DigitValue(s[|s| - 1], base)
  }

  predicate AllAccepted(s: string, base: nat) {
    forall i :: 0 <= i < |s| ==> Accepted(s[i], base)
  }

  lemma TableDigit(conv: char, k: nat)
    requires IsConversion(conv) && Base(conv) in {10, 16} && k < Base(conv)
    ensures Accepted(DigitTable(conv)[k], Base(conv)) && DigitValue(DigitTable(conv)[k], Base(conv)) == k
  {}

  /** The digits printed for a number have its value. */
  lemma {:induction false} DigitsValue(conv: char, u: nat)
    requires IsConversion(conv) && Base(conv) in {10, 16}
    ensures Value(Digits(conv, u), Base(conv)) == u && AllAccepted(Digits(conv, u), Base(conv))
    decreases u
  {
    hide Digits, DigitTable, Accepted, DigitValue, Value, Times;
    var base := Base(conv);
    TableDigit(conv, u % base);
    DigitsStep(conv, u);
    TimesBack(u, base);
    ValueNone(base);
    if u / base > 0 {
      DigitsValue(conv, u / base);
    }
    var front := if u / base > 0 then Digits(conv, u / base) else "";
    ValueMore(front, DigitTable(conv)[u % base], base);
  }

  lemma TimesBack(u: nat, base: nat)
    requires base in {10, 16}
    ensures Times(u / base, base) + u % base == u && (u / base > 0 ==> u / base < u)
    ensures Times(0, base) == 0
  {
    if base == 10 {
    } else {
      assert base == 16;
    }
  }

  lemma ValueMore(s: string, c: char, base: nat)
    ensures Value(s + [c], base) == Times(Value(s, base), base) + DigitValue(c, base)
  {
    assert (s + [c])[..|s|] == s;
    hide Times, DigitValue;
  }

  lemma AcceptedValue(c: char, base: nat)
    requires base in {10, 16} && Accepted(c, base)
    ensures 0 <= DigitValue(c, base) < base
  {}

  /** A longer number of accepted digits is not smaller. */
  lemma {:induction false} ValueGrows(s: string, k: nat, base: nat)
    requires base in {10, 16} && AllAccepted(s, base) && k <= |s|
    ensures 0 <= Value(s[..k], base) <= Value(s, base)
    decreases |s|
  {
    hide Accepted, DigitValue;
    if s == [] {
      assert s[..k] == s;
    } else {
      var t := s[..|s| - 1];
      AcceptedValue(s[|s| - 1], base);
      ValueGrows(t, |t|, base);
      assert t[..|t|] == t;
      if k < |s| {
        ValueGrows(t, k, base);
        assert t[..k] == s[..k];
      } else {
        assert s[..k] == s;
      }
    }
  }

  lemma {:induction false} ValueZeros(n: int, s: string, base: nat)
    requires base in {10, 16}
    ensures Value(Fill('0', n) + s, base) == Value(s, base)
    decreases |s|, if n > 0 then n else 0
  {
    var z := Fill('0', n);
    if s == [] {
      assert z + s == z;
      if n > 0 {
        ValueZeros(n - 1, [], base);
        assert Fill('0', n - 1) + [] == Fill('0', n - 1);
        ValueMore(Fill('0', n - 1), '0', base);
      }
    } else {
      var t, c := s[..|s| - 1], s[|s| - 1];
      ValueZeros(n, t, base);
      ValueMore(z + t, c, base);
      assert z + s == z + t + [c] && t + [c] == s;
      hide Fill, Times, DigitValue;
    }
  }

  lemma NoWrap(v: int, c: char, base: nat)
    requires base in {10, 16} && 0 <= v && 0 <= Times(v, base) + DigitValue(c, base) < 0x4000_0000_0000_0000 && 0 <= DigitValue(c, base)
    ensures v < 0x4000_0000_0000_0000 && Accumulate(v, c, base) == Times(v, base) + DigitValue(c, base)
  {
    hide DigitValue;
  }

  /** The conversion loop computes the value of the digits `d` that stand between `a` and what follows. */
  lemma {:induction false} NumberIsValue(a: string, d: string, t: string, k: nat, base: nat)
    requires base in {10, 16} && AllAccepted(d, base) && k <= |d| && Value(d, base) < 0x4000_0000_0000_0000
    requires t != [] ==> !Accepted(t[0], base)
    ensures 0 <= Value(d[..k], base) < 0x4000_0000_0000_0000
    ensures Number(a + d + t, |a| + k, base, Value(d[..k], base)) == (Value(d, base), |a| + |d|)
    decreases |d| - k
  {
    hide *;
    ValueGrows(d, k, base);
    NextNumber(a + d + t, |a| + k, base, Value(d[..k], base));
    CharAt(a, d, t, k);
    if k == |d| {
      Whole(d);
    } else {
      StepDigit(d, k, base);
      NumberIsValue(a, d, t, k + 1, base);
    }
  }

  lemma Whole(d: string)
    ensures d[..|d|] == d
  {}

  lemma CharAt(a: string, d: string, t: string, k: nat)
    requires k <= |d|
    ensures |a + d + t| == |a| + |d| + |t|
    ensures k < |d| ==> (a + d + t)[|a| + k] == d[k]
    ensures k == |d| && t != [] ==> (a + d + t)[|a| + k] == t[0]
  {}

  /** One round of the loop on the digit at `k`. */
  lemma StepDigit(d: string, k: nat, base: nat)
    requires base in {10, 16} && AllAccepted(d, base) && k < |d| && Value(d, base) < 0x4000_0000_0000_0000
    ensures Accepted(d[k], base) && 0 <= Value(d[..k], base) < 0x4000_0000_0000_0000
    ensures Accumulate(Value(d[..k], base), d[k], base) == Value(d[..k + 1], base)
  {
    assert Accepted(d[k], base);
    assert d[..k + 1] == d[..k] + [d[k]];
    hide *;
    ValueMore(d[..k], d[k], base);
    ValueGrows(d, k, base);
    ValueGrows(d, k + 1, base);
    AcceptedValue(d[k], base);
    NoWrap(Value(d[..k], base), d[k], base);
  }

  predicate AllSpaces(s: string) {
    forall i :: 0 <= i < |s| ==> IsSpace(s[i])
  }

  lemma {:induction false} SkipsBlanks(b: string, r: string, i: nat)
    requires AllSpaces(b) && i <= |b| && (r != [] ==> !IsSpace(r[0]))
    ensures SkipSpace(b + r, i) == |b|
    decreases |b| - i
  {
    NextSpace(b + r, i);
    hide SkipSpace, IsSpace;
    if i < |b| {
      assert (b + r)[i] == b[i];
      SkipsBlanks(b, r, i + 1);
    } else {
      assert i < |b + r| ==> (b + r)[i] == r[0];
    }
  }

  /** What ends a number: neither a hexadecimal digit nor the `x` of a prefix. */
  predicate Stops(t: string) {
    t != [] ==> !IsHexDigit(t[0]) && t[0] != 'x'
  }

  lemma SpacesStop(t: string)
    requires AllSpaces(t)
    ensures Stops(t)
  {}

  /** The base in which the digits after a prefix are read. */
  function BaseAfter(prefix: string, base: nat): nat {
    if prefix == "0x" then 16 else base
  }

  predicate IsSignText(sign: string) {
    sign in {"", "+", "-"}
  }

  predicate IsPrefixText(prefix: string, base: nat) {
    prefix == "" || (prefix == "0x" && (base == 0 || base == 16))
  }

  function Applied(sign: string, v: Long): Long {
    if sign == "-" then Negated(v) else v
  }

  /** A number as it is written: blanks, a sign, a prefix, digits, and what ends it. */
  predicate IsText(s: string, b: string, sign: string, prefix: string, d: string, t: string) {
    s == b + sign + prefix + d + t
  }

  /** Blanks, sign and prefix are passed over; what is parsed is what the loop makes of the digits. */
  lemma ParsesDigits(s: string, b: string, sign: string, prefix: string, d: string, t: string, base: nat, v: Long)
    requires IsText(s, b, sign, prefix, d, t)
    requires AllSpaces(b) && Stops(t) && IsSignText(sign) && IsPrefixText(prefix, base)
    requires d != [] && AllAccepted(d, BaseAfter(prefix, base))
    requires |b| + |sign| + |prefix| <= |s|
    requires Number(s, |b| + |sign| + |prefix|, BaseAfter(prefix, base), 0) == (v, |b| + |sign| + |prefix| + |d|)
    ensures Parse(s, base) == (Applied(sign, v), |b| + |sign| + |prefix| + |d|)
  {
    hide *;
    BlanksSkipped(s, b, sign, prefix, d, t, base);
    AllPlaced(s, b, sign, prefix, d, t, base);
    ParsesPlaced(s, |b|, sign, prefix, d, t, base, v);
  }

  lemma ParsesPlaced(s: string, i: nat, sign: string, prefix: string, d: string, t: string, base: nat, v: Long)
    requires SkipSpace(s, 0) == i && Placed(s, i, sign, prefix, d, t)
    requires Stops(t) && IsPrefixText(prefix, base) && d != [] && AllAccepted(d, BaseAfter(prefix, base))
    requires i + |sign| + |prefix| <= |s|
    requires Number(s, i + |sign| + |prefix|, BaseAfter(prefix, base), 0) == (v, i + |sign| + |prefix| + |d|)
    ensures Parse(s, base) == (Applied(sign, v), i + |sign| + |prefix| + |d|)
  {
    hide *;
    ParseIs(s, base);
    RestParses(s, i, sign, prefix, d, t, base, v);
  }

  /** From the sign at `i` on stand the prefix, the digits, and what ends them. */
  ghost predicate Placed(s: string, i: nat, sign: string, prefix: string, d: string, t: string) {
    var j := i + |sign|;
    i < |s| && j + |prefix| + |d| <= |s| && s[j..j + |prefix|] == prefix && s[j + |prefix|..j + |prefix| + |d|] == d &&
    (j + |prefix| + |d| < |s| ==> t != [] && s[j + |prefix| + |d|] == t[0]) &&
    SkipSign(s, i) == j && (s[i] == '-' <==> sign == "-")
  }

  lemma BlanksSkipped(s: string, b: string, sign: string, prefix: string, d: string, t: string, base: nat)
    requires IsText(s, b, sign, prefix, d, t) && AllSpaces(b) && IsSignText(sign) && IsPrefixText(prefix, base)
    requires d != [] && AllAccepted(d, BaseAfter(prefix, base))
    ensures SkipSpace(s, 0) == |b|
  {
    var r := sign + prefix + d + t;
    assert s == b + r;
    hide *;
    FirstOfRest(sign, prefix, d, t, base);
    SkipsBlanks(b, r, 0);
  }

  lemma AllPlaced(s: string, b: string, sign: string, prefix: string, d: string, t: string, base: nat)
    requires IsText(s, b, sign, prefix, d, t)
    requires IsSignText(sign) && IsPrefixText(prefix, base) && d != [] && AllAccepted(d, BaseAfter(prefix, base))
    ensures Placed(s, |b|, sign, prefix, d, t)
  {
    FirstOfRest(sign, prefix, d, t, base);
    RestPlaces(b, sign, prefix, d, t);
    SignTexts(sign);
    hide SkipSign, IsSignText, IsPrefixText, AllAccepted, BaseAfter, IsSpace;
    SignSkipped(s, b, sign);
  }

  /** The text from the sign on. */
  lemma RestParses(s: string, i: nat, sign: string, prefix: string, d: string, t: string, base: nat, v: Long)
    requires Placed(s, i, sign, prefix, d, t)
    requires Stops(t) && IsPrefixText(prefix, base) && d != [] && AllAccepted(d, BaseAfter(prefix, base))
    requires i + |sign| + |prefix| <= |s|
    requires Number(s, i + |sign| + |prefix|, BaseAfter(prefix, base), 0) == (v, i + |sign| + |prefix| + |d|)
    ensures i <= |s| && ParseAt(s, i, base) == (Applied(sign, v), i + |sign| + |prefix| + |d|)
  {
    hide SkipSign, HasPrefix, Number, Stops, IsPrefixText, AllAccepted, BaseAfter, Applied, ParseAt;
    PrefixSeen(s, i + |sign|, prefix, d, t, base);
    PartsParse(s, i, i + |sign|, sign, prefix, base, v, |d|);
  }

  lemma SignTexts(sign: string)
    ensures IsSignText(sign) <==> sign in {"", "+", "-"}
  {}

  lemma PartsParse(s: string, i: nat, j: nat, sign: string, prefix: string, base: nat, v: Long, n: nat)
    requires i < |s| && i <= j <= |s| && n > 0 && j + |prefix| <= |s| && IsPrefixText(prefix, base)
    requires SkipSign(s, i) == j && (s[i] == '-' <==> sign == "-") && (HasPrefix(s, j, base) <==> prefix == "0x")
    requires Number(s, j + |prefix|, BaseAfter(prefix, base), 0) == (v, j + |prefix| + n)
    ensures ParseAt(s, i, base) == (Applied(sign, v), j + |prefix| + n)
  {
    hide *;
    ParseParts(s, i, base);
    AppliedIs(sign, v);
    BaseAfterIs(prefix, base);
  }

  lemma AppliedIs(sign: string, v: Long)
    ensures Applied(sign, v) == if sign == "-" then Negated(v) else v
  {
    hide Negated;
  }

  lemma BaseAfterIs(prefix: string, base: nat)
    ensures BaseAfter(prefix, base) == if prefix == "0x" then 16 else base
    ensures IsPrefixText(prefix, base) ==> prefix == "" || (prefix == "0x" && |prefix| == 2)
  {}

  /** A blank-padded number with sign and prefix is read back. */
  lemma ParsesText(b: string, sign: string, prefix: string, d: string, t: string, base: nat)
    requires AllSpaces(b) && Stops(t) && IsSignText(sign) && IsPrefixText(prefix, base)
    requires BaseAfter(prefix, base) in {10, 16} && d != [] && AllAccepted(d, BaseAfter(prefix, base))
    requires Value(d, BaseAfter(prefix, base)) < 0x4000_0000_0000_0000
    ensures 0 <= Value(d, BaseAfter(prefix, base))
    ensures Parse(b + sign + prefix + d + t, base) ==
            (if sign == "-" then -Value(d, BaseAfter(prefix, base)) else Value(d, BaseAfter(prefix, base)),
             |b| + |sign| + |prefix| + |d|)
  {
    var in_ := BaseAfter(prefix, base);
    var v := Value(d, in_);
    hide *;
    ValueNone(in_);
    ValueGrows(d, 0, in_);
    NoDigits(d);
    StopsAccepting(t, in_);
    NumberIsValue(b + sign + prefix, d, t, 0, in_);
    LengthOf(b, sign, prefix);
    Whole(d);
    NegatedIs(v);
    AppliedIs(sign, v);
    TextIs(b, sign, prefix, d, t);
    ParsesDigits(b + sign + prefix + d + t, b, sign, prefix, d, t, base, v);
  }

  lemma TextIs(b: string, sign: string, prefix: string, d: string, t: string)
    ensures IsText(b + sign + prefix + d + t, b, sign, prefix, d, t)
    ensures |b + sign + prefix + d + t| == |b| + |sign| + |prefix| + |d| + |t|
  {}

  lemma NoDigits(d: string)
    ensures d[..0] == ""
  {}

  lemma LengthOf(b: string, sign: string, prefix: string)
    ensures |b + sign + prefix| == |b| + |sign| + |prefix|
  {}

  lemma StopsAccepting(t: string, base: nat)
    requires Stops(t)
    ensures t != [] ==> !Accepted(t[0], base)
  {}

  lemma FirstOfRest(sign: string, prefix: string, d: string, t: string, base: nat)
    requires IsSignText(sign) && IsPrefixText(prefix, base) && d != [] && AllAccepted(d, BaseAfter(prefix, base))
    ensures var r := sign + prefix + d + t;
            r != [] && !IsSpace(r[0]) && (sign == "" ==> r[0] != '-' && r[0] != '+') && (sign != "" ==> r[0] == sign[0])
  {
    assert Accepted(d[0], BaseAfter(prefix, base));
  }

  lemma PrefixSeen(s: string, j: nat, prefix: string, d: string, t: string, base: nat)
    requires j + |prefix| + |d| <= |s| && s[j..j + |prefix|] == prefix && s[j + |prefix|..j + |prefix| + |d|] == d
    requires IsPrefixText(prefix, base) && d != [] && AllAccepted(d, BaseAfter(prefix, base))
    requires Stops(t) && (j + |prefix| + |d| < |s| ==> t != [] && s[j + |prefix| + |d|] == t[0])
    ensures HasPrefix(s, j, base) <==> prefix == "0x"
  {
    assert s[j + |prefix|] == d[0] && Accepted(d[0], BaseAfter(prefix, base));
    if prefix == "0x" {
      assert s[j] == prefix[0] && s[j + 1] == prefix[1];
    } else if j + 1 < |s| && |d| > 1 {
      assert s[j + 1] == d[1] && Accepted(d[1], base);
    }
  }

  // ----- base zero -----

  /** One round in base zero forgets what was read before. */
  lemma RoundInBaseZero(num: Long, c: char)
    requires Accepted(c, 0)
    ensures 0 <= DigitValue(c, 0) < 0x100 && Accumulate(num, c, 0) == DigitValue(c, 0)
  {}

  lemma {:induction false} NumberInBaseZero(a: string, d: string, t: string, k: nat, num: Long)
    requires AllAccepted(d, 0) && k <= |d| && Stops(t) && d != []
    ensures Number(a + d + t, |a| + k, 0, num) ==
            (if k == |d| then num else DigitValue(d[|d| - 1], 0), |a| + |d|)
    decreases |d| - k
  {
    hide DigitValue, Accumulate, Number;
    NextNumber(a + d + t, |a| + k, 0, num);
    CharAt(a, d, t, k);
    StopsAccepting(t, 0);
    if k < |d| {
      RoundInBaseZero(num, d[k]);
      NumberInBaseZero(a, d, t, k + 1, Accumulate(num, d[k], 0));
    }
  }

  /** In base zero, digits without a `0x` prefix are read as the last of them: each round multiplies what was
      read before by the base. */
  lemma BaseZeroKeepsLastDigit(b: string, sign: string, d: string, t: string)
    requires AllSpaces(b) && IsSignText(sign) && Stops(t) && d != [] && AllAccepted(d, 0)
    ensures 0 <= DigitValue(d[|d| - 1], 0) < 0x100
    ensures Parse(b + sign + d + t, 0) ==
            (if sign == "-" then -DigitValue(d[|d| - 1], 0) else DigitValue(d[|d| - 1], 0), |b| + |sign| + |d|)
  {
    hide *;
    var v := DigitValue(d[|d| - 1], 0);
    LastAccepted(d);
    RoundInBaseZero(0, d[|d| - 1]);
    NumberInBaseZero(b + sign + "", d, t, 0, 0);
    EmptyPrefix(b, sign, d, t);
    BaseAfterIs("", 0);
    LengthOf(b, sign, "");
    NegatedIs(v);
    AppliedIs(sign, v);
    NoPrefix();
    TextIs(b, sign, "", d, t);
    ParsesDigits(b + sign + "" + d + t, b, sign, "", d, t, 0, v);
  }

  lemma LastAccepted(d: string)
    requires d != [] && AllAccepted(d, 0)
    ensures Accepted(d[|d| - 1], 0)
  {}

  lemma NoPrefix()
    ensures IsPrefixText("", 0) && IsPrefixText("", 10) && |""| == 0
  {}

  /** With a `0x` prefix, base zero is base sixteen, whatever follows. */
  lemma BaseZeroWithPrefix(s: string)
    requires HasPrefix(s, SkipSign(s, SkipSpace(s, 0)), 0)
    ensures Parse(s, 0) == Parse(s, 16)
  {
    hide Number, SkipSpace, SkipSign;
  }

  /** On decimal digits, base zero agrees with base ten exactly when all digits but the last are zeros. */
  lemma BaseZeroIsDecimalIff(b: string, sign: string, d: string, t: string)
    requires AllSpaces(b) && IsSignText(sign) && Stops(t) && d != [] && AllAccepted(d, 10)
    requires Value(d, 10) < 0x4000_0000_0000_0000
    ensures Parse(b + sign + d + t, 0) == Parse(b + sign + d + t, 10) <==> Value(d[..|d| - 1], 10) == 0
    ensures Value(d[..|d| - 1], 10) == 0 <==> AllZeros(d[..|d| - 1])
  {
    hide *;
    HexIfDecimal(d);
    DecimalParts(d);
    BaseZeroKeepsLastDigit(b, sign, d, t);
    DecimalParses(b, sign, d, t);
    ZeroValueIff(d[..|d| - 1]);
  }

  predicate AllZeros(d: string) {
    forall i :: 0 <= i < |d| ==> d[i] == '0'
  }

  lemma HexIfDecimal(d: string)
    requires d != [] && AllAccepted(d, 10)
    ensures AllAccepted(d, 0) && AllAccepted(d[..|d| - 1], 10)
  {}

  lemma DecimalParts(d: string)
    requires d != [] && AllAccepted(d, 10)
    ensures var front, last := d[..|d| - 1], d[|d| - 1];
            Value(d, 10) == 10 * Value(front, 10) + DigitValue(last, 10) &&
            DigitValue(last, 0) == DigitValue(last, 10)
  {
    var front, last := d[..|d| - 1], d[|d| - 1];
    assert d == front + [last] && Accepted(last, 10);
    SameDigit(last);
    ValueMore(front, last, 10);
    TenTimes(Value(front, 10));
  }

  lemma DecimalParses(b: string, sign: string, d: string, t: string)
    requires AllSpaces(b) && IsSignText(sign) && Stops(t) && d != [] && AllAccepted(d, 10) && Value(d, 10) < 0x4000_0000_0000_0000
    ensures Parse(b + sign + d + t, 10) == (if sign == "-" then -Value(d, 10) else Value(d, 10), |b| + |sign| + |d|)
  {
    hide *;
    NoPrefix();
    BaseAfterIs("", 10);
    EmptyPrefix(b, sign, d, t);
    ParsesText(b, sign, "", d, t, 10);
  }

  lemma EmptyPrefix(b: string, sign: string, d: string, t: string)
    ensures b + sign + "" + d + t == b + sign + d + t
  {}

  lemma TenTimes(v: int)
    ensures Times(v, 10) == 10 * v
  {}

  lemma SameDigit(c: char)
    requires IsDigit(c)
    ensures DigitValue(c, 0) == DigitValue(c, 10)
  {}

  lemma {:induction false} ZeroValueIff(d: string)
    requires AllAccepted(d, 10)
    ensures Value(d, 10) == 0 <==> AllZeros(d)
  {
    if d != [] {
      var front, last := d[..|d| - 1], d[|d| - 1];
      assert d == front + [last] && Accepted(last, 10);
      ZeroValueIff(front);
      ValueMore(front, last, 10);
      ValueGrows(front, |front|, 10);
      Whole(front);
      TenTimes(Value(front, 10));
      assert DigitValue(last, 10) == 0 <==> last == '0';
      assert 0 <= DigitValue(last, 10);
      hide Value, Accepted, DigitValue, Times;
    }
  }

  /** The shortest input that is read differently. */
  lemma TwelveInBaseZero()
    ensures Parse("12", 0) == (2, 2) && Parse("12", 10) == (12, 2)
  {
    var s, d := "12", "12";
    BaseZeroKeepsLastDigit("", "", d, "");
    assert "" + "" + d + "" == s && "" + "" + "" + d + "" == s;
    assert d[..1] == "1" && "1"[..0] == "";
    assert Value("1", 10) == 1;
    assert Value(d, 10) == 12;
    ParsesText("", "", "", d, "", 10);
  }

  lemma ValueNone(base: nat)
    ensures Value("", base) == 0
  {}

  /** Where the parts stand. */
  lemma RestPlaces(b: string, sign: string, prefix: string, d: string, t: string)
    requires d != []
    ensures var s, j := b + sign + prefix + d + t, |b| + |sign|;
            b + (sign + prefix + d + t) == s && |b| < |s| && s[|b|] == (sign + prefix + d + t)[0] &&
            j + |prefix| + |d| <= |s| && s[j..j + |prefix|] == prefix && s[j + |prefix|..j + |prefix| + |d|] == d &&
            (j + |prefix| + |d| < |s| ==> t != [] && s[j + |prefix| + |d|] == t[0]) && d[..0] == []
  {}

  lemma ParseParts(s: string, i: nat, base: nat)
    requires i < |s|
    ensures var j := SkipSign(s, i);
            var k := if HasPrefix(s, j, base) then j + 2 else j;
            var r := Number(s, k, if HasPrefix(s, j, base) then 16 else base, 0);
            ParseAt(s, i, base) == (if s[i] == '-' then Negated(r.0) else r.0, if r.1 == k then 0 else r.1)
  {
    hide Number, HasPrefix, SkipSign, Negated;
  }

  lemma NegatedIs(v: int)
    requires 0 <= v < 0x4000_0000_0000_0000
    ensures Negated(v) == -v
  {}

  lemma SignSkipped(s: string, b: string, sign: string)
    requires |b| < |s| && sign in {"", "+", "-"}
    requires (sign == "" ==> s[|b|] != '-' && s[|b|] != '+') && (sign != "" ==> s[|b|] == sign[0])
    ensures SkipSign(s, |b|) == |b| + |sign| && (s[|b|] == '-' <==> sign == "-")
  {}

  lemma ZerosAccepted(n: int, s: string, base: nat)
    requires AllAccepted(s, base)
    ensures AllAccepted(Fill('0', n) + s, base)
  {}

  lemma BlanksAreSpaces(d: Directive, u: Word)
    requires IsConversion(d.conv)
    ensures AllSpaces(Fill(' ', LeftBlanks(d, u))) && AllSpaces(Fill(' ', LeftBlanks(d, u)) + " ") && AllSpaces(RightText(d, u))
  {
    hide LeftBlanks, PaddedSize;
  }

  lemma SignedParts(d: Directive, u: Word)
    requires IsSigned(d.conv)
    ensures IsConversion(d.conv) && Base(d.conv) == 10
    ensures SignText(d, u) in {"", "+", "-", " "} && PrefixText(d, u) == ""
    ensures Wrap(if SignText(d, u) == "-" then 0 - Magnitude(d, u) as int else Magnitude(d, u)) == u
  {}

  /** The blank that a space flag prints belongs to the blanks. */
  function Blanks(d: Directive, u: Word): string
    requires IsConversion(d.conv)
  {
    Fill(' ', LeftBlanks(d, u)) + if SignText(d, u) == " " then " " else ""
  }

  function Zeros(d: Directive, u: Word): int
    requires IsConversion(d.conv)
  {
    PaddedSize(d, u) - |Digits(d.conv, Magnitude(d, u))|
  }

  lemma TextParts(d: Directive, u: Word)
    requires IsConversion(d.conv)
    ensures IntegerText(d, u) ==
            Blanks(d, u) + (if SignText(d, u) == " " then "" else SignText(d, u)) + PrefixText(d, u)
            + (Fill('0', Zeros(d, u)) + Digits(d.conv, Magnitude(d, u))) + RightText(d, u)
  {
    var b, sign, p, z, ds := Fill(' ', LeftBlanks(d, u)), SignText(d, u), PrefixText(d, u), Fill('0', Zeros(d, u)), Digits(d.conv, Magnitude(d, u));
    hide Fill, Digits, LeftBlanks, PaddedSize, SignText, PrefixText, RightText, Magnitude;
    Reparts(b, sign, p, z, ds, RightText(d, u));
  }

  lemma Reparts(b: string, sign: string, p: string, z: string, ds: string, r: string)
    ensures b + sign + p + z + ds + r ==
            (b + if sign == " " then " " else "") + (if sign == " " then "" else sign) + p + (z + ds) + r
  {}

  /** The zero-padded digits, as the parser sees them. */
  lemma PaddedDigits(d: Directive, u: Word, base: nat)
    requires IsConversion(d.conv) && Base(d.conv) == base && base in {10, 16}
    ensures var ds := Fill('0', Zeros(d, u)) + Digits(d.conv, Magnitude(d, u));
            ds != [] && AllAccepted(ds, base) && Value(ds, base) == Magnitude(d, u)
  {
    DigitsValue(d.conv, Magnitude(d, u));
    hide Accepted, Value, Magnitude, PaddedSize, Fill;
    ZerosAccepted(Zeros(d, u), Digits(d.conv, Magnitude(d, u)), base);
    ValueZeros(Zeros(d, u), Digits(d.conv, Magnitude(d, u)), base);
  }

  /** strtol in base ten reads back what `%d` prints, for every number and with any flags, width and
      precision; it stops where the number ends. */
  lemma SignedRoundTrip(d: Directive, u: Word)
    requires IsSigned(d.conv)
    ensures Strtol(IntegerText(d, u), 10) == u
  {
    hide *;
    SignedParts(d, u);
    var sign := SignText(d, u);
    TextParts(d, u);
    BlanksAreSpaces(d, u);
    BlanksOnly(d, u);
    PaddedDigits(d, u, 10);
    StrtolWraps(IntegerText(d, u), 10);
    var ds := Fill('0', Zeros(d, u)) + Digits(d.conv, Magnitude(d, u));
    SpacesStop(RightText(d, u));
    SignAndPrefix(if sign == " " then "" else sign, "", 10);
    ParsesText(Blanks(d, u), if sign == " " then "" else sign, "", ds, RightText(d, u), 10);
  }

  lemma SignAndPrefix(sign: string, prefix: string, base: nat)
    requires sign in {"", "+", "-"} && prefix in {"", "0x"} && (prefix == "0x" ==> base == 16) && base in {10, 16}
    ensures IsSignText(sign) && IsPrefixText(prefix, base) && BaseAfter(prefix, base) == base
  {}

  lemma StrtolWraps(s: string, base: nat)
    ensures Strtol(s, base) == Wrap(Parse(s, base).0)
  {
    hide Parse;
  }

  lemma BlanksOnly(d: Directive, u: Word)
    requires IsConversion(d.conv)
    ensures AllSpaces(Blanks(d, u))
  {
    BlanksAreSpaces(d, u);
    hide LeftBlanks, Fill, SignText;
    assert Fill(' ', LeftBlanks(d, u)) + "" == Fill(' ', LeftBlanks(d, u));
  }

  lemma StrtolIs(s: string, base: nat, u: Word)
    ensures Parse(s, base).0 == u ==> Strtol(s, base) == u
  {
    hide Parse;
  }

  lemma UnsignedParts(d: Directive, u: Word)
    requires d.conv in "uxXp"
    ensures IsConversion(d.conv) && SignText(d, u) == "" && Magnitude(d, u) == u && Base(d.conv) in {10, 16}
    ensures PrefixText(d, u) in {"", "0x"} && (PrefixText(d, u) == "0x" ==> Base(d.conv) == 16)
  {}

  /** strtoul reads back what `%u` prints in base ten, and what `%x`, `%#x`, `%X` and `%p` print in base
      sixteen, with any flags, width and precision. */
  lemma UnsignedRoundTrip(d: Directive, u: Word)
    requires d.conv in "uxXp"
    ensures IsConversion(d.conv) && Strtol(IntegerText(d, u), Base(d.conv)) == u
  {
    UnsignedParts(d, u);
    TextParts(d, u);
    BlanksAreSpaces(d, u);
    PaddedDigits(d, u, Base(d.conv));
    BlanksOnly(d, u);
    StrtolIs(IntegerText(d, u), Base(d.conv), u);
    hide *;
    var ds := Fill('0', Zeros(d, u)) + Digits(d.conv, Magnitude(d, u));
    SpacesStop(RightText(d, u));
    SignAndPrefix("", PrefixText(d, u), Base(d.conv));
    ParsesText(Blanks(d, u), "", PrefixText(d, u), ds, RightText(d, u), Base(d.conv));
  }

  // ----- format strings -----

  const PLAIN: Directive := Directive(false, false, false, false, false, -1, -1, ' ')

  function SetFlag(d: Directive, c: char): Directive {
    if c == '-' then d.(left := true) else if c == '+' then d.(plus := true) else if c == ' ' then d.(space := true)
    else if c == '0' then d.(zero := true) else d.(alternate := true)
  }

  function FlagsAt(fmt: string, i: nat, d: Directive): (r: (Directive, nat))
    requires i <= |fmt|
    ensures i <= r.1 <= |fmt|
    decreases |fmt| - i
  {
    if i < |fmt| && fmt[i] in "-+ 0#" then FlagsAt(fmt, i + 1, SetFlag(d, fmt[i])) else (d, i)
  }

  function DecimalAt(fmt: string, i: nat, acc: nat): (r: (nat, nat))
    requires i <= |fmt|
    ensures i <= r.1 <= |fmt|
    decreases |fmt| - i
  {
    if i < |fmt| && IsDigit(fmt[i]) then DecimalAt(fmt, i + 1, 10 * acc + (fmt[i] as int - '0' as int)) else (acc, i)
  }

  /** A width, or a precision after its point: -1 when there is none. */
  function SizeAt(fmt: string, i: nat): (r: (int, nat))
    requires i <= |fmt|
    ensures i <= r.1 <= |fmt|
  {
    if i < |fmt| && IsDigit(fmt[i]) then DecimalAt(fmt, i, 0) else (-1, i)
  }

  function PrecisionAt(fmt: string, i: nat): (r: (int, nat))
    requires i <= |fmt|
    ensures i <= r.1 <= |fmt|
  {
    if i < |fmt| && fmt[i] == '.' then SizeAt(fmt, i + 1) else (-1, i)
  }

  function LengthAt(fmt: string, i: nat): (r: nat)
    requires i <= |fmt|
    ensures i <= r <= |fmt|
  {
    if i < |fmt| && fmt[i] in "hlL" then i + 1 else i
  }

  /** `%p` is an eight-digit `%#x`. */
  function WithConversion(d: Directive, c: char): Directive {
    if c == 'p' then d.(precision := 8, width := 8, alternate := true, conv := c) else d.(conv := c)
  }

  /** The directive after a percent sign and the position after it; None at the end of the string and for
      sizes given as arguments. */
  function DirectiveAt(fmt: string, i: nat): (r: Option<(Directive, nat)>)
    requires i <= |fmt|
    ensures r.Some? ==> i < r.value.1 <= |fmt|
  {
    var (d, j) := FlagsAt(fmt, i, PLAIN);
    var (width, k) := SizeAt(fmt, j);
    var (precision, l) := PrecisionAt(fmt, k);
    var m := LengthAt(fmt, l);
    if m == |fmt| || fmt[m] == '*' then None
    else Some((WithConversion(d.(width := width, precision := precision), fmt[m]), m + 1))
  }

  /** What a format string prints for some integers; None for conversions that are not about integers and for
      missing arguments. */
  function Format(fmt: string, i: nat, args: seq<Word>): Option<string>
    requires i <= |fmt|
    decreases |fmt| - i
  {
    if i == |fmt| then Some("")
    else if fmt[i] != '%' then Prepended([fmt[i]], Format(fmt, i + 1, args))
    else
      var r := DirectiveAt(fmt, i + 1);
      if r == None then None
      else
        var d := r.value.0;
        if IsConversion(d.conv) then
          if args == [] then None else Prepended(IntegerText(d, args[0]), Format(fmt, r.value.1, args[1..]))
        else if d.conv in "scnf*" then None
        else Prepended(if d.conv == '%' then "%" else "%" + [d.conv], Format(fmt, r.value.1, args))
  }

  function Prepended(s: string, r: Option<string>): Option<string> {
    if r == None then None else Some(s + r.value)
  }

  method ReadFlags(fmt: string, i0: nat) returns (d: Directive, i: nat)
    requires i0 <= |fmt|
    ensures (d, i) == FlagsAt(fmt, i0, PLAIN)
  {
    d, i := PLAIN, i0;
    while i < |fmt| && fmt[i] in "-+ 0#"
      invariant i0 <= i <= |fmt| && FlagsAt(fmt, i, d) == FlagsAt(fmt, i0, PLAIN)
    {
      hide SetFlag;
      d := SetFlag(d, fmt[i]);
      i := i + 1;
    }
  }

  method ReadSize(fmt: string, i0: nat) returns (n: int, i: nat)
    requires i0 <= |fmt|
    ensures (n, i) == SizeAt(fmt, i0)
  {
    i := i0;
    if i == |fmt| || !IsDigit(fmt[i]) {
      return -1, i;
    }
    n := 0;
    while i < |fmt| && IsDigit(fmt[i])
      invariant i0 <= i <= |fmt| && n >= 0 && DecimalAt(fmt, i, n) == DecimalAt(fmt, i0, 0)
    {
      n := n * 10 + (fmt[i] as int - '0' as int);
      i := i + 1;
    }
  }

  method ReadDirective(fmt: string, i0: nat) returns (d: Directive, i: nat)
    requires i0 <= |fmt| && DirectiveAt(fmt, i0).Some?
    ensures DirectiveAt(fmt, i0) == Some((d, i))
  {
    hide FlagsAt, SizeAt;
    d, i := ReadFlags(fmt, i0);
    var width, precision;
    width, i := ReadSize(fmt, i);
    precision := -1;
    if i < |fmt| && fmt[i] == '.' {
      precision, i := ReadSize(fmt, i + 1);
    }
    if i < |fmt| && fmt[i] in "hlL" {
      i := i + 1;
    }
    d := WithConversion(d.(width := width, precision := precision), fmt[i]);
    i := i + 1;
  }

  /** `vsnprintf` on formats of literals and integers: the output is the formatted text, cut to at most
      `size - 1` characters. */
  method Vsnprintf(size: nat, fmt: string, args: seq<Word>) returns (str: string)
    requires size >= 1 && Format(fmt, 0, args).Some?
    ensures str == Fitting(Format(fmt, 0, args).value, size - 1) && |str| < size
  {
    hide IntegerText, Wrote, Format, DirectiveAt, Fitting;
    var out := new Out(size - 1);
    var i, rest := 0, args;
    ghost var full, done := Format(fmt, 0, args).value, "";
    WroteNothing(size - 1);
    assert "" + full == full;
    while out.size > 0 && i < |fmt|
      invariant i <= |fmt| && Format(fmt, i, rest).Some? && full == done + Format(fmt, i, rest).value
      invariant fresh(out) && Wrote("", size - 1, done, out.text, out.size, true)
      decreases |fmt| - i
    {
      ghost var t1, n1, part := out.text, out.size, "";
      var ok;
      FormatNext(fmt, i, rest);
      if fmt[i] != '%' {
        part := [fmt[i]];
        ok := out.PutCh(fmt[i]);
        i := i + 1;
      } else {
        var d, j := ReadDirective(fmt, i + 1);
        if IsConversion(d.conv) {
          part := IntegerText(d, rest[0]);
          ok := PrintInteger(out, d, rest[0]);
          rest := rest[1..];
        } else {
          part := if d.conv == '%' then "%" else "%" + [d.conv];
          ok := out.PutStr(if d.conv == '%' then "%" else "%" + [d.conv]);
        }
        i := j;
      }
      WroteMore("", size - 1, done, t1, n1, part, out.text, out.size, ok);
      Associates(done, part, Format(fmt, i, rest).value);
      done := done + part;
      if !ok {
        WroteCut("", size - 1, done, out.text, out.size, Format(fmt, i, rest).value);
        WroteAll(size - 1, full, out.text, out.size, false);
        return out.text;
      }
    }
    if i == |fmt| {
      FormatEnd(fmt, i, rest);
    }
    WroteFull(size - 1, done, out.text, out.size, Format(fmt, i, rest).value);
    return out.text;
  }

  lemma Associates(a: string, b: string, c: string)
    ensures a + (b + c) == (a + b) + c
  {}

  lemma FormatEnd(fmt: string, i: nat, args: seq<Word>)
    requires i == |fmt|
    ensures Format(fmt, i, args) == Some("")
  {}

  /** The next part of a format. */
  lemma FormatNext(fmt: string, i: nat, args: seq<Word>)
    requires i < |fmt| && Format(fmt, i, args).Some?
    ensures fmt[i] != '%' ==> Format(fmt, i, args) == Prepended([fmt[i]], Format(fmt, i + 1, args))
    ensures fmt[i] == '%' ==>
              var r := DirectiveAt(fmt, i + 1);
              r.Some? &&
              var d := r.value.0;
              if IsConversion(d.conv) then
                args != [] && Format(fmt, i, args) == Prepended(IntegerText(d, args[0]), Format(fmt, r.value.1, args[1..]))
              else Format(fmt, i, args) == Prepended(if d.conv == '%' then "%" else "%" + [d.conv], Format(fmt, r.value.1, args))
  {
    hide IntegerText, DirectiveAt, IsConversion;
  }

  lemma WroteNothing(n: nat)
    ensures Wrote("", n, "", "", n, true)
  {}

  lemma WroteAll(n: nat, s: string, text: string, size: nat, ok: bool)
    requires Wrote("", n, s, text, size, ok)
    ensures text == Fitting(s, n) && |text| <= n
  {}

  /** When the output is full or nothing is left, what was written is the text as far as it fits. */
  lemma WroteFull(n: nat, done: string, text: string, size: nat, rest: string)
    requires Wrote("", n, done, text, size, true) && (size == 0 || rest == "")
    ensures text == Fitting(done + rest, n) && |text| <= n
  {
    assert rest == "" ==> done + rest == done;
    assert |done| == n ==> (done + rest)[..n] == done;
  }

  /** The plain formats: what `printf("%d", n)` prints is read back by strtol, `printf("%x", n)` by strtoul. */
  lemma PrintedIsRead(u: Word)
    ensures Format("%d", 0, [u]).Some? && Strtol(Format("%d", 0, [u]).value, 10) == u
    ensures Format("%x", 0, [u]).Some? && Strtol(Format("%x", 0, [u]).value, 16) == u
  {
    OneConversion('d', "%d", u);
    OneConversion('x', "%x", u);
    DecimalBack(u);
    HexBack(u);
    hide *;
  }

  lemma DecimalBack(u: Word)
    ensures Strtol(IntegerText(PLAIN.(conv := 'd'), u), 10) == u
  {
    hide IntegerText, Strtol;
    SignedRoundTrip(PLAIN.(conv := 'd'), u);
  }

  lemma HexBack(u: Word)
    ensures Strtol(IntegerText(PLAIN.(conv := 'x'), u), 16) == u
  {
    hide IntegerText, Strtol;
    UnsignedRoundTrip(PLAIN.(conv := 'x'), u);
  }

  lemma OneConversion(c: char, fmt: string, u: Word)
    requires c == 'd' || c == 'x'
    requires |fmt| == 2 && fmt[0] == '%' && fmt[1] == c
    ensures IsConversion(c) && Format(fmt, 0, [u]) == Some(IntegerText(PLAIN.(conv := c), u))
  {
    assert FlagsAt(fmt, 1, PLAIN) == (PLAIN, 1);
    assert DirectiveAt(fmt, 1) == Some((PLAIN.(conv := c), 2));
    FormatEnd(fmt, 2, []);
    hide IntegerText, FlagsAt, DirectiveAt;
    assert [u][1..] == [];
    assert IntegerText(PLAIN.(conv := c), u) + "" == IntegerText(PLAIN.(conv := c), u);
  }
}
