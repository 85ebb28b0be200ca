/** libs/src/libc/vsnprintf.c: what format strings print, by the parts they are written with (section 7.19.6.1 of
    ISO C99, and the program's own b). */
module Formats {
  import opened Words
  import opened Options
  import opened Printf

  /** A format string is written with literal text, percent signs, directives, and percent signs before a character
      that is no directive. */
  datatype Piece =
    | Literal(text: string)
    | Percent
    | Unknown(conv: char)
    | Integer(flags: string, width: string, precision: Option<string>, length: string, conv: char)

  predicate IsDigits(s: string) {
    forall i :: 0 <= i < |s| ==> IsDigit(s[i])
  }

  predicate AreFlags(s: string) {
    forall i :: 0 <= i < |s| ==> IsFlag(s[i])
  }

  predicate IsFlag(c: char) {
    c in "-+ 0#"
  }

  predicate IsLength(s: string) {
    s in {"", "h", "l", "L"}
  }

  /** A character that ends flags, width, precision and length. */
  predicate IsLast(c: char) {
    !IsFlag(c) && !IsDigit(c) && c !in ".hlL*"
  }

  predicate WellFormed(p: Piece) {
    match p
    case Literal(text) => '%' !in text
    case Percent => true
    case Unknown(conv) => IsLast(conv) && conv !in "bopxXdiucfns%"
    case Integer(flags, width, precision, length, conv) =>
      AreFlags(flags) &&
      IsDigits(width) && (width == "" || width[0] != '0') &&
      (precision == None || IsDigits(precision.value)) &&
      IsLength(length) && conv in "bopxXdiu"
  }

  function Written(p: Piece): string {
    match p
    case Literal(text) => text
    case Percent => "%%"
    case Unknown(conv) => "%" + [conv]
    case Integer(flags, width, precision, length, conv) =>
      "%" + (flags + (width + (Point(precision) + (length + [conv]))))
  }

  function Point(precision: Option<string>): string {
    if precision == None then "" else "." + precision.value
  }

  function WrittenAll(ps: seq<Piece>): string {
    if ps == [] then "" else Written(ps[0]) + WrittenAll(ps[1..])
  }

  // ----- what a directive asks for -----

  function Width(p: Piece): int
    requires p.Integer?
  {
    if p.conv == 'p' then 8 else Named(p.width, 10)
  }

  function Precision(p: Piece): int
    requires p.Integer?
  {
    if p.conv == 'p' then 8 else if p.precision == None then 0 else Named(p.precision.value, 10)
  }

  /** A minus for a negative number, else what the flags ask for. */
  function Sign(p: Piece, u: Word): string
    requires p.Integer?
  {
    if p.conv != 'd' && p.conv != 'i' then ""
    else if Signed(u) < 0 then "-"
    else if '+' in p.flags then "+"
    else if ' ' in p.flags then " "
    else ""
  }

  function Prefix(p: Piece, u: Word): string
    requires p.Integer?
  {
    if u == 0 || (p.conv != 'p' && '#' !in p.flags) then ""
    else match p.conv
         case 'o' => "0"
         case 'x' => "0x"
         case 'X' => "0x"
         case 'p' => "0x"
         case 'b' => "%"
         case _ => ""
  }

  function Radix(conv: char): nat {
    match conv
    case 'b' => 2
    case 'o' => 8
    case 'x' => 16
    case 'X' => 16
    case 'p' => 16
    case _ => 10
  }

  function Larger(m: int, n: int): int {
    if m > n then m else n
  }

  /** The size without blanks: a prefixed binary number has an extra zero. */
  function BodySize(p: Piece, u: Word, digits: string): int
    requires p.Integer?
  {
    |Sign(p, u)| + |Prefix(p, u)| + Larger(|digits|, Precision(p)) + if p.conv == 'b' && Prefix(p, u) != "" then 1 else 0
  }

  /** The text is blanks, sign, prefix, zeros, the digits of the number, and blanks. With a minus flag the blanks are on
      the right, and the width does not count the prefix; else with a zero flag there are no blanks; and else the blanks
      are on the left. Zeros fill the precision, or the width where the zero flag says so. */
  ghost predicate Laid(p: Piece, u: Word, text: string, left: nat, zeros: nat, digits: string, right: nat)
    requires p.Integer?
  {
    text == Fill(' ', left) + Sign(p, u) + Prefix(p, u) + Fill('0', zeros) + digits + Fill(' ', right) &&
    IsNumeral(digits, Radix(p.conv), p.conv == 'X') &&
    Named(digits, Radix(p.conv)) == (if p.conv == 'd' || p.conv == 'i' then Abs(Signed(u)) else u) &&
    var body := BodySize(p, u, digits);
    if '-' in p.flags then
      left == 0 && |text| - right == body && |text| == Larger(body, Width(p) + |Prefix(p, u)|)
    else if '0' in p.flags then
      left == right == 0 && |text| == Larger(body, Width(p))
    else
      right == 0 && |text| - left == body && |text| == Larger(body, Width(p))
  }

  ghost predicate Shows(p: Piece, u: Word, text: string)
    requires p.Integer?
  {
    exists left: nat, zeros: nat, digits: string, right: nat :: Laid(p, u, text, left, zeros, digits, right)
  }

  function Abs(n: int): nat {
    if n < 0 then -n else n
  }

  /** The pieces' texts one after the other: literal text unchanged, and each directive showing the next argument. */
  ghost predicate Output(ps: seq<Piece>, args: seq<Word>, text: string) {
    if ps == [] then text == ""
    else
      match ps[0]
      case Literal(t) => t <= text && Output(ps[1..], args, text[|t|..])
      case Percent => "%" <= text && Output(ps[1..], args, text[1..])
      case Unknown(conv) => "%" + [conv] <= text && Output(ps[1..], args, text[2..])
      case Integer(_, _, _, _, _) =>
        args != [] && exists k: nat :: k <= |text| && Shows(ps[0], args[0], text[..k]) && Output(ps[1..], args[1..], text[k..])
  }

  function Integers(ps: seq<Piece>): nat {
    if ps == [] then 0 else (if ps[0].Integer? then 1 else 0) + Integers(ps[1..])
  }

  // ----- the directive of a piece -----

  function SizeOf(digits: string): int {
    if digits == "" then -1 else Named(digits, 10)
  }

  function PrecisionOf(precision: Option<string>): int {
    if precision == None then -1 else SizeOf(precision.value)
  }

  function Flagged(d: Directive, flags: string): Directive {
    d.(left := d.left || '-' in flags, plus := d.plus || '+' in flags, space := d.space || ' ' in flags,
       zero := d.zero || '0' in flags, alternate := d.alternate || '#' in flags)
  }

  function DirectiveOf(flags: string, width: string, precision: Option<string>, c: char): Directive {
    WithConversion(Flagged(PLAIN, flags).(width := SizeOf(width), precision := PrecisionOf(precision)), c)
  }

  /** `s` stands at position `i`. */
  predicate At(fmt: string, i: nat, s: string) {
    i + |s| <= |fmt| && fmt[i..i + |s|] == s
  }

  lemma AtParts(fmt: string, i: nat, s: string, t: string)
    requires At(fmt, i, s + t)
    ensures At(fmt, i, s) && At(fmt, i + |s|, t)
  {
    assert s == (s + t)[..|s|];
    assert t == (s + t)[|s|..];
    assert fmt[i..i + |s|] == fmt[i..i + |s + t|][..|s|];
    assert fmt[i + |s|..i + |s| + |t|] == fmt[i..i + |s + t|][|s|..];
  }

  lemma AtFirst(fmt: string, i: nat, s: string)
    requires At(fmt, i, s) && s != ""
    ensures i < |fmt| && fmt[i] == s[0]
  {
    assert fmt[i] == fmt[i..i + |s|][0];
  }

  lemma AtIndex(fmt: string, i: nat, s: string, k: nat)
    requires At(fmt, i, s) && k < |s|
    ensures i + k < |fmt| && fmt[i + k] == s[k]
  {
    assert fmt[i + k] == fmt[i..i + |s|][k];
  }

  // ----- parsing -----

  lemma FlagSet(d: Directive, flags: string)
    requires flags != "" && IsFlag(flags[0])
    ensures Flagged(SetFlag(d, flags[0]), flags[1..]) == Flagged(d, flags)
  {
    assert flags == [flags[0]] + flags[1..];
  }

  lemma {:induction false} FlagsFrom(fmt: string, i: nat, flags: string, d: Directive)
    requires At(fmt, i, flags) && AreFlags(flags)
    requires i + |flags| < |fmt| && !IsFlag(fmt[i + |flags|])
    ensures FlagsAt(fmt, i, d) == (Flagged(d, flags), i + |flags|)
    decreases |flags|
  {
    if flags != "" {
      FirstFlag(fmt, i, flags, d);
      FlagSet(d, flags);
      hide *;
      FlagsFrom(fmt, i + 1, flags[1..], SetFlag(d, flags[0]));
    } else {
      hide IsFlag;
      NoFlag(fmt, i, d);
    }
  }

  lemma NoFlag(fmt: string, i: nat, d: Directive)
    requires i < |fmt| && !IsFlag(fmt[i])
    ensures FlagsAt(fmt, i, d) == (d, i) && Flagged(d, "") == d
  {}

  lemma FirstFlag(fmt: string, i: nat, flags: string, d: Directive)
    requires At(fmt, i, flags) && AreFlags(flags) && flags != ""
    ensures i < |fmt| && IsFlag(flags[0]) && FlagsAt(fmt, i, d) == FlagsAt(fmt, i + 1, SetFlag(d, flags[0]))
    ensures At(fmt, i + 1, flags[1..]) && AreFlags(flags[1..])
  {
    AtFirst(fmt, i, flags);
    assert flags == [flags[0]] + flags[1..];
    AtParts(fmt, i, [flags[0]], flags[1..]);
    hide SetFlag;
  }

  lemma {:induction false} DecimalFrom(fmt: string, i: nat, digits: string, k: nat)
    requires At(fmt, i, digits) && IsDigits(digits) && k <= |digits|
    ensures Named(digits[..k], 10) >= 0
    ensures DecimalAt(fmt, i, 0) == DecimalAt(fmt, i + k, Named(digits[..k], 10))
    decreases k
  {
    if k > 0 {
      DecimalFrom(fmt, i, digits, k - 1);
      AtIndex(fmt, i, digits, k - 1);
      assert digits[..k][..k - 1] == digits[..k - 1];
      DigitIs(digits[k - 1]);
      hide DigitOf, At, IsDigit;
      assert IsDigit(digits[k - 1]);
    }
  }

  lemma DigitIs(c: char)
    requires IsDigit(c)
    ensures DigitOf(c) == c as int - '0' as int >= 0
  {}

  lemma SizeFrom(fmt: string, i: nat, digits: string)
    requires At(fmt, i, digits) && IsDigits(digits)
    requires i + |digits| < |fmt| && !IsDigit(fmt[i + |digits|])
    ensures SizeAt(fmt, i) == (SizeOf(digits), i + |digits|)
  {
    if digits != "" {
      AtFirst(fmt, i, digits);
      DecimalFrom(fmt, i, digits, |digits|);
      assert digits[..|digits|] == digits;
    }
    hide IsDigit, Named, At;
  }

  lemma PrecisionFrom(fmt: string, i: nat, precision: Option<string>)
    requires At(fmt, i, Point(precision)) && (precision == None || IsDigits(precision.value))
    requires var j := i + |Point(precision)|; j < |fmt| && !IsDigit(fmt[j]) && fmt[j] != '.'
    ensures PrecisionAt(fmt, i) == (PrecisionOf(precision), i + |Point(precision)|)
  {
    if precision != None {
      AtFirst(fmt, i, Point(precision));
      AtParts(fmt, i, ".", precision.value);
      SizeFrom(fmt, i + 1, precision.value);
    }
    hide IsDigit, At, SizeAt, SizeOf;
  }

  predicate DirectiveWritten(fmt: string, i: nat, flags: string, width: string, precision: Option<string>, length: string, c: char) {
    At(fmt, i, flags + (width + (Point(precision) + (length + [c]))))
  }

  predicate TailWritten(fmt: string, k: nat, precision: Option<string>, length: string, c: char) {
    At(fmt, k, Point(precision) + (length + [c]))
  }

  /** The directive that is written at a position. */
  lemma DirectiveFrom(fmt: string, i: nat, flags: string, width: string, precision: Option<string>, length: string, c: char)
    requires DirectiveWritten(fmt, i, flags, width, precision, length, c) && IsLast(c)
    requires WellFormed(Integer(flags, width, precision, length, 'd'))
    ensures DirectiveAt(fmt, i) ==
            Some((DirectiveOf(flags, width, precision, c), i + |flags| + |width| + |Point(precision)| + |length| + 1))
  {
    hide *;
    IntegerFormed(flags, width, precision, length);
    DirectiveHead(fmt, i, flags, width, precision, length, c);
    var j, k := i + |flags|, i + |flags| + |width|;
    DirectiveTail(fmt, k, precision, length, c);
    var l := k + |Point(precision)|;
    DirectiveIs(fmt, i, flags, j, width, k, precision, l, l + |length|, c);
  }

  lemma DirectiveHead(fmt: string, i: nat, flags: string, width: string, precision: Option<string>, length: string, c: char)
    requires DirectiveWritten(fmt, i, flags, width, precision, length, c) && IsLast(c)
    requires AreFlags(flags) && IsDigits(width) && (width == "" || width[0] != '0') && IsLength(length)
    ensures i <= |fmt| && FlagsAt(fmt, i, PLAIN) == (Flagged(PLAIN, flags), i + |flags|)
    ensures SizeAt(fmt, i + |flags|) == (SizeOf(width), i + |flags| + |width|)
    ensures TailWritten(fmt, i + |flags| + |width|, precision, length, c)
  {
    AtInside(fmt, i, flags + (width + (Point(precision) + (length + [c]))));
    hide *;
    var sized := Point(precision) + (length + [c]);
    Starts(precision, length, c);
    StartsWidth(width, sized);
    FlagsBefore(fmt, i, flags, width + sized);
    WidthBefore(fmt, i + |flags|, width, sized);
  }

  lemma DirectiveTail(fmt: string, k: nat, precision: Option<string>, length: string, c: char)
    requires TailWritten(fmt, k, precision, length, c) && IsLast(c)
    requires (precision == None || IsDigits(precision.value)) && IsLength(length)
    ensures var l := k + |Point(precision)|;
            PrecisionAt(fmt, k) == (PrecisionOf(precision), l) &&
            l + |length| < |fmt| && LengthAt(fmt, l) == l + |length| && fmt[l + |length|] == c != '*'
  {
    assert At(fmt, k, Point(precision) + (length + [c]));
    hide *;
    Starts(precision, length, c);
    PrecisionBefore(fmt, k, precision, length + [c]);
    LengthBefore(fmt, k + |Point(precision)|, length, c);
  }

  lemma IntegerFormed(flags: string, width: string, precision: Option<string>, length: string)
    requires WellFormed(Integer(flags, width, precision, length, 'd'))
    ensures AreFlags(flags) && IsDigits(width) && (width == "" || width[0] != '0')
    ensures (precision == None || IsDigits(precision.value)) && IsLength(length)
  {
    hide AreFlags, IsDigits;
  }

  lemma AtInside(fmt: string, i: nat, s: string)
    requires At(fmt, i, s)
    ensures i <= |fmt|
  {}

  lemma FlagsBefore(fmt: string, i: nat, flags: string, rest: string)
    requires At(fmt, i, flags + rest) && rest != "" && !IsFlag(rest[0])
    requires AreFlags(flags)
    ensures FlagsAt(fmt, i, PLAIN) == (Flagged(PLAIN, flags), i + |flags|) && At(fmt, i + |flags|, rest)
  {
    AtParts(fmt, i, flags, rest);
    AtFirst(fmt, i + |flags|, rest);
    hide At;
    FlagsFrom(fmt, i, flags, PLAIN);
  }

  lemma WidthBefore(fmt: string, i: nat, width: string, rest: string)
    requires At(fmt, i, width + rest) && IsDigits(width) && rest != "" && !IsDigit(rest[0])
    ensures SizeAt(fmt, i) == (SizeOf(width), i + |width|) && At(fmt, i + |width|, rest)
  {
    AtParts(fmt, i, width, rest);
    AtFirst(fmt, i + |width|, rest);
    hide At;
    SizeFrom(fmt, i, width);
  }

  lemma PrecisionBefore(fmt: string, i: nat, precision: Option<string>, rest: string)
    requires At(fmt, i, Point(precision) + rest) && (precision == None || IsDigits(precision.value))
    requires rest != "" && !IsDigit(rest[0]) && rest[0] != '.'
    ensures PrecisionAt(fmt, i) == (PrecisionOf(precision), i + |Point(precision)|)
    ensures At(fmt, i + |Point(precision)|, rest)
  {
    AtParts(fmt, i, Point(precision), rest);
    AtFirst(fmt, i + |Point(precision)|, rest);
    hide At, Point, SizeOf;
    PrecisionFrom(fmt, i, precision);
  }

  lemma LengthBefore(fmt: string, i: nat, length: string, c: char)
    requires At(fmt, i, length + [c]) && IsLength(length) && IsLast(c)
    ensures i + |length| < |fmt| && LengthAt(fmt, i) == i + |length| && fmt[i + |length|] == c != '*'
  {
    AtParts(fmt, i, length, [c]);
    AtFirst(fmt, i, length + [c]);
    AtFirst(fmt, i + |length|, [c]);
    hide At;
  }

  lemma DirectiveIs(fmt: string, i: nat, flags: string, j: nat, width: string, k: nat, precision: Option<string>, l: nat, m: nat, c: char)
    requires i <= |fmt| && FlagsAt(fmt, i, PLAIN) == (Flagged(PLAIN, flags), j) && SizeAt(fmt, j) == (SizeOf(width), k)
    requires PrecisionAt(fmt, k) == (PrecisionOf(precision), l) && LengthAt(fmt, l) == m && m < |fmt| && fmt[m] == c != '*'
    ensures DirectiveAt(fmt, i) == Some((DirectiveOf(flags, width, precision, c), m + 1))
  {
    hide FlagsAt, SizeAt, PrecisionAt, LengthAt, WithConversion, Flagged, SizeOf, PrecisionOf;
  }

  lemma Starts(precision: Option<string>, length: string, c: char)
    requires IsLast(c) && IsLength(length)
    ensures var end := length + [c];
            end != "" && !IsDigit(end[0]) && end[0] != '.' && !IsFlag(end[0]) && (length == "" ==> c !in "hlL") && c != '*'
    ensures var sized := Point(precision) + (length + [c]);
            sized != "" && !IsDigit(sized[0]) && !IsFlag(sized[0])
  {}

  lemma StartsWidth(width: string, sized: string)
    requires IsDigits(width) && (width == "" || width[0] != '0') && sized != "" && !IsFlag(sized[0])
    ensures !IsFlag((width + sized)[0])
  {}

  // ----- printing a piece -----

  lemma FormatChar(fmt: string, i: nat, args: seq<Word>)
    requires i < |fmt| && fmt[i] != '%'
    ensures Format(fmt, i, args) == Prepended([fmt[i]], Format(fmt, i + 1, args))
  {}

  lemma PrependedTwice(s: string, t: string, r: Option<string>)
    ensures Prepended(s, Prepended(t, r)) == Prepended(s + t, r)
  {
    if r.Some? {
      assert s + (t + r.value) == s + t + r.value;
    }
  }

  lemma {:induction false} FormatLiteral(fmt: string, i: nat, text: string, args: seq<Word>)
    requires At(fmt, i, text) && '%' !in text
    ensures Format(fmt, i, args) == Prepended(text, Format(fmt, i + |text|, args))
    decreases |text|
  {
    hide Format;
    if text == "" {
      PrependNothing(Format(fmt, i, args));
    } else {
      AtFirst(fmt, i, text);
      var rest := text[1..];
      assert text == [text[0]] + rest;
      AtParts(fmt, i, [text[0]], rest);
      FormatChar(fmt, i, args);
      hide At, Prepended;
      FormatLiteral(fmt, i + 1, rest, args);
      PrependedTwice([text[0]], rest, Format(fmt, i + |text|, args));
    }
  }

  lemma PrependNothing(r: Option<string>)
    ensures Prepended("", r) == r
  {
    if r.Some? {
      assert "" + r.value == r.value;
    }
  }

  lemma FormatDirective(fmt: string, i: nat, args: seq<Word>, d: Directive, j: nat)
    requires i < |fmt| && fmt[i] == '%' && DirectiveAt(fmt, i + 1) == Some((d, j))
    ensures d.conv == '%' ==> Format(fmt, i, args) == Prepended("%", Format(fmt, j, args))
    ensures IsConversion(d.conv) && args != [] ==>
              Format(fmt, i, args) == Prepended(IntegerText(d, args[0]), Format(fmt, j, args[1..]))
  {
    hide DirectiveAt, IntegerText;
  }

  lemma FormatPercent(fmt: string, i: nat, args: seq<Word>)
    requires At(fmt, i, "%%")
    ensures Format(fmt, i, args) == Prepended("%", Format(fmt, i + 2, args))
  {
    assert "%%" == "%" + "%";
    AtParts(fmt, i, "%", "%");
    AtFirst(fmt, i, "%%");
    CharWritten(fmt, i + 1, '%');
    hide Format, At, DirectiveAt;
    DirectiveFrom(fmt, i + 1, "", "", None, "", '%');
    FormatDirective(fmt, i, args, DirectiveOf("", "", None, '%'), i + 2);
  }

  /** A percent sign and a character that is no directive. */
  lemma FormatUnknown(fmt: string, i: nat, c: char, args: seq<Word>)
    requires At(fmt, i, "%" + [c]) && WellFormed(Unknown(c))
    ensures Format(fmt, i, args) == Prepended("%" + [c], Format(fmt, i + 2, args))
  {
    AtParts(fmt, i, "%", [c]);
    AtFirst(fmt, i, "%" + [c]);
    hide Format, At, DirectiveAt;
    CharWritten(fmt, i + 1, c);
    DirectiveFrom(fmt, i + 1, "", "", None, "", c);
    ConversionIs(c);
    FormatOther(fmt, i, args, DirectiveOf("", "", None, c), i + 2);
  }

  lemma ConversionIs(c: char)
    ensures DirectiveOf("", "", None, c).conv == c
  {}

  lemma FormatOther(fmt: string, i: nat, args: seq<Word>, d: Directive, j: nat)
    requires i < |fmt| && fmt[i] == '%' && DirectiveAt(fmt, i + 1) == Some((d, j)) && d.conv !in "bopxXdiucfns%*"
    ensures Format(fmt, i, args) == Prepended("%" + [d.conv], Format(fmt, j, args))
  {
    hide DirectiveAt;
  }

  lemma CharWritten(fmt: string, i: nat, c: char)
    requires At(fmt, i, [c])
    ensures DirectiveWritten(fmt, i, "", "", None, "", c) && WellFormed(Integer("", "", None, "", 'd'))
  {
    assert "" + ("" + ("" + ("" + [c]))) == [c];
  }

  lemma FormatInteger(fmt: string, i: nat, p: Piece, args: seq<Word>)
    requires At(fmt, i, Written(p)) && p.Integer? && WellFormed(p) && args != []
    ensures IsConversion(p.conv) &&
            Format(fmt, i, args) == Prepended(PieceText(p, args[0]), Format(fmt, i + |Written(p)|, args[1..]))
  {
    hide Format, At, DirectiveAt;
    hide IntegerText;
    IntegerWritten(fmt, i, p);
    var d := DirectiveOf(p.flags, p.width, p.precision, p.conv);
    DirectiveFrom(fmt, i + 1, p.flags, p.width, p.precision, p.length, p.conv);
    FormatDirective(fmt, i, args, d, i + |Written(p)|);
  }

  function PieceText(p: Piece, u: Word): string
    requires p.Integer? && IsConversion(p.conv)
  {
    IntegerText(DirectiveOf(p.flags, p.width, p.precision, p.conv), u)
  }

  lemma IntegerWritten(fmt: string, i: nat, p: Piece)
    requires At(fmt, i, Written(p)) && p.Integer? && WellFormed(p)
    ensures i < |fmt| && fmt[i] == '%' && DirectiveWritten(fmt, i + 1, p.flags, p.width, p.precision, p.length, p.conv)
    ensures |Written(p)| == 1 + |p.flags| + |p.width| + |Point(p.precision)| + |p.length| + 1
    ensures WellFormed(Integer(p.flags, p.width, p.precision, p.length, 'd')) && IsLast(p.conv) && IsConversion(p.conv)
    ensures DirectiveOf(p.flags, p.width, p.precision, p.conv).conv == p.conv
  {
    AtFirst(fmt, i, Written(p));
    AtParts(fmt, i, "%", p.flags + (p.width + (Point(p.precision) + (p.length + [p.conv]))));
    hide At;
  }

  // ----- what the text shows -----

  function DirectiveFor(p: Piece): Directive
    requires p.Integer?
  {
    DirectiveOf(p.flags, p.width, p.precision, p.conv)
  }

  lemma DirectiveHas(p: Piece)
    requires p.Integer? && WellFormed(p)
    ensures var d := DirectiveFor(p);
            IsConversion(p.conv) && d.conv == p.conv && (d.left <==> '-' in p.flags) && (d.zero <==> '0' in p.flags) &&
            (d.plus <==> '+' in p.flags) && (d.space <==> ' ' in p.flags) &&
            (d.alternate <==> p.conv == 'p' || '#' in p.flags)
  {
    hide AreFlags, IsDigits, SizeOf, PrecisionOf, IsLength;
  }

  /** A missing size does not matter where something is printed. */
  lemma DirectiveSizes(p: Piece, n: nat)
    requires p.Integer? && WellFormed(p) && n >= 1
    ensures var d := DirectiveFor(p);
            (if n > d.precision then n else d.precision) == Larger(n, Precision(p)) &&
            Width(p) >= 0 && (d.width == Width(p) || (d.width == -1 && Width(p) == 0))
  {
    NamedPositive(p.width);
    if p.precision.Some? {
      NamedPositive(p.precision.value);
    }
    hide AreFlags, IsDigits, IsLength, Flagged, IsDigit;
  }

  lemma {:induction false} NamedPositive(s: string)
    requires IsDigits(s)
    ensures Named(s, 10) >= 0 && (s == "" ==> Named(s, 10) == 0)
  {
    if s != "" {
      NamedPositive(s[..|s| - 1]);
      assert IsDigit(s[|s| - 1]);
      DigitIs(s[|s| - 1]);
      hide DigitOf, IsDigits, IsDigit;
    }
  }

  lemma SignShown(p: Piece, u: Word)
    requires p.Integer? && WellFormed(p)
    ensures SignText(DirectiveFor(p), u) == Sign(p, u)
  {
    DirectiveHas(p);
    hide WellFormed, DirectiveFor, Signed;
  }

  lemma PrefixShown(p: Piece, u: Word)
    requires p.Integer? && WellFormed(p)
    ensures DirectiveFor(p).conv == p.conv && IsConversion(p.conv) && Base(p.conv) == Radix(p.conv)
    ensures PrefixText(DirectiveFor(p), u) == Prefix(p, u)
    ensures PrefixSize(DirectiveFor(p), u) == |Prefix(p, u)| + if p.conv == 'b' && Prefix(p, u) != "" then 1 else 0
  {
    DirectiveHas(p);
    hide WellFormed, DirectiveFor;
  }

  lemma MagnitudeShown(p: Piece, u: Word)
    requires p.Integer? && WellFormed(p)
    ensures Magnitude(DirectiveFor(p), u) == if p.conv == 'd' || p.conv == 'i' then Abs(Signed(u)) else u
  {
    DirectiveHas(p);
    hide WellFormed, DirectiveFor;
  }

  lemma SizeShown(p: Piece, u: Word, digits: string)
    requires p.Integer? && WellFormed(p) && IsConversion(p.conv) && DirectiveFor(p).conv == p.conv
    requires digits == Digits(p.conv, Magnitude(DirectiveFor(p), u))
    ensures PrintedSize(DirectiveFor(p), u) == BodySize(p, u, digits)
  {
    hide Digits, Magnitude, WellFormed, DirectiveFor, Sign, Prefix, SignText, PrefixText, PrefixSize, Precision;
    DirectiveSizes(p, |digits|);
    SignShown(p, u);
    PrefixShown(p, u);
  }

  function AtLeast(n: int): nat {
    if n > 0 then n else 0
  }

  lemma FillAtLeast(c: char, n: int)
    ensures Fill(c, n) == Fill(c, AtLeast(n)) && |Fill(c, n)| == AtLeast(n)
  {}

  lemma PaddingShown(p: Piece, u: Word, digits: string)
    requires p.Integer? && WellFormed(p) && IsConversion(p.conv) && DirectiveFor(p).conv == p.conv
    requires digits == Digits(p.conv, Magnitude(DirectiveFor(p), u))
    ensures var d, body, width := DirectiveFor(p), BodySize(p, u, digits), Width(p);
            LeftBlanks(d, u) == (if '-' in p.flags || '0' in p.flags then 0 else AtLeast(width - body)) &&
            PaddedSize(d, u) == (if '-' !in p.flags && '0' in p.flags then Larger(width, body) else body)
                                - |Sign(p, u)| - |Prefix(p, u)|
  {
    hide Digits, Magnitude, WellFormed, DirectiveFor, Sign, Prefix, SignText, PrefixText, PrefixSize, Precision, Width, PrintedSize;
    DirectiveSizes(p, |digits|);
    DirectiveHas(p);
    SignShown(p, u);
    PrefixShown(p, u);
    SizeShown(p, u, digits);
  }

  lemma RightShown(p: Piece, u: Word, digits: string)
    requires p.Integer? && WellFormed(p) && IsConversion(p.conv) && DirectiveFor(p).conv == p.conv
    requires digits == Digits(p.conv, Magnitude(DirectiveFor(p), u))
    ensures RightText(DirectiveFor(p), u) == Fill(' ', RightBlanks(p, u, digits))
  {
    hide Digits, Magnitude, WellFormed, DirectiveFor, Sign, Prefix, SignText, PrefixText, PrefixSize, Precision, Width, PaddedSize;
    DirectiveSizes(p, |digits|);
    DirectiveHas(p);
    SignShown(p, u);
    PaddingShown(p, u, digits);
    FillAtLeast(' ', DirectiveFor(p).width - PaddedSize(DirectiveFor(p), u) - |Sign(p, u)|);
    hide Fill;
  }

  function RightBlanks(p: Piece, u: Word, digits: string): nat
    requires p.Integer?
  {
    if '-' in p.flags then AtLeast(Width(p) + |Prefix(p, u)| - BodySize(p, u, digits)) else 0
  }

  lemma PartsShown(p: Piece, u: Word, digits: string)
    requires p.Integer? && WellFormed(p) && IsConversion(p.conv) && DirectiveFor(p).conv == p.conv
    requires digits == Digits(p.conv, Magnitude(DirectiveFor(p), u))
    ensures var d := DirectiveFor(p);
            PieceText(p, u) == Fill(' ', LeftBlanks(d, u)) + Sign(p, u) + Prefix(p, u) + Fill('0', PaddedSize(d, u) - |digits|)
                               + digits + Fill(' ', RightBlanks(p, u, digits))
  {
    hide Digits, Magnitude, WellFormed, Sign, Prefix, SignText, PrefixText, LeftBlanks, PaddedSize, RightText, RightBlanks, Fill, DirectiveOf;
    SignShown(p, u);
    PrefixShown(p, u);
    RightShown(p, u, digits);
  }

  /** The parts laid out. */
  lemma Lays(p: Piece, u: Word, text: string, left: nat, zeros: nat, digits: string, right: nat)
    requires p.Integer?
    requires text == Fill(' ', left) + Sign(p, u) + Prefix(p, u) + Fill('0', zeros) + digits + Fill(' ', right)
    requires IsNumeral(digits, Radix(p.conv), p.conv == 'X')
    requires Named(digits, Radix(p.conv)) == (if p.conv == 'd' || p.conv == 'i' then Abs(Signed(u)) else u)
    requires var body, width := BodySize(p, u, digits), Width(p);
             left == (if '-' in p.flags || '0' in p.flags then 0 else AtLeast(width - body)) &&
             zeros == (if '-' !in p.flags && '0' in p.flags then Larger(width, body) else body)
                      - |Sign(p, u)| - |Prefix(p, u)| - |digits| &&
             right == RightBlanks(p, u, digits)
    ensures Laid(p, u, text, left, zeros, digits, right)
  {
    hide Sign, Prefix, BodySize, Width, IsNumeral, Named, Radix, Fill;
    FillAtLeast(' ', left);
    FillAtLeast('0', zeros);
    FillAtLeast(' ', right);
    LengthsAdd(Fill(' ', left), Sign(p, u), Prefix(p, u), Fill('0', zeros), digits, Fill(' ', right));
  }

  lemma LengthsAdd(a: string, b: string, c: string, d: string, e: string, f: string)
    ensures |a + b + c + d + e + f| == |a| + |b| + |c| + |d| + |e| + |f|
  {}

  lemma BodyRoom(p: Piece, u: Word, digits: string)
    requires p.Integer?
    ensures BodySize(p, u, digits) >= |Sign(p, u)| + |Prefix(p, u)| + |digits|
  {
    hide Sign, Prefix, Precision;
  }

  /** What a directive prints is what it asks for. */
  lemma TextShows(p: Piece, u: Word)
    requires p.Integer? && WellFormed(p)
    ensures IsConversion(p.conv) && Shows(p, u, PieceText(p, u))
  {
    hide *;
    DirectiveHas(p);
    var d := DirectiveFor(p);
    var digits := Digits(p.conv, Magnitude(d, u));
    SignShown(p, u);
    PrefixShown(p, u);
    MagnitudeShown(p, u);
    SizeShown(p, u, digits);
    DigitsNameNumber(p.conv, Magnitude(d, u));
    DirectiveSizes(p, |digits|);
    var left, zeros, right := LeftBlanks(d, u), PaddedSize(d, u) - |digits|, RightBlanks(p, u, digits);
    BodyRoom(p, u, digits);
    PaddingShown(p, u, digits);
    PartsShown(p, u, digits);
    LargerIs(Width(p), BodySize(p, u, digits));
    Lays(p, u, PieceText(p, u), left, zeros, digits, right);
    ShowsBy(p, u, PieceText(p, u), left, zeros, digits, right);
  }

  lemma LargerIs(m: int, n: int)
    ensures Larger(m, n) >= n && AtLeast(m - n) >= 0
  {}

  lemma ShowsBy(p: Piece, u: Word, text: string, left: nat, zeros: nat, digits: string, right: nat)
    requires p.Integer? && Laid(p, u, text, left, zeros, digits, right)
    ensures Shows(p, u, text)
  {
    hide Laid;
  }

  // ----- what a format prints -----

  /** The string from a position on. */
  predicate From(fmt: string, i: nat, s: string) {
    i <= |fmt| && fmt[i..] == s
  }

  lemma FromParts(fmt: string, i: nat, s: string, t: string)
    requires From(fmt, i, s + t)
    ensures At(fmt, i, s) && From(fmt, i + |s|, t) && i + |s| <= |fmt|
  {
    assert |fmt[i..]| == |s| + |t|;
    assert s == (s + t)[..|s|] && t == (s + t)[|s|..];
    assert fmt[i..i + |s|] == fmt[i..][..|s|];
    assert fmt[i + |s|..] == fmt[i..][|s|..];
  }

  ghost predicate AllWellFormed(ps: seq<Piece>) {
    forall i :: 0 <= i < |ps| ==> WellFormed(ps[i])
  }

  lemma {:induction false} FormatShowsFrom(fmt: string, i: nat, ps: seq<Piece>, args: seq<Word>)
    requires From(fmt, i, WrittenAll(ps)) && AllWellFormed(ps) && Integers(ps) <= |args|
    ensures i <= |fmt| && Format(fmt, i, args).Some? && Output(ps, args, Format(fmt, i, args).value)
    decreases |ps|
  {
    hide Format, WellFormed, Written, Shows, From;
    if ps == [] {
      AtEnd(fmt, i);
      FormatEnd(fmt, i, args);
    } else {
      var p, rest := ps[0], ps[1..];
      FromParts(fmt, i, Written(p), WrittenAll(rest));
      var j := i + |Written(p)|;
      var left := if p.Integer? then args[1..] else args;
      assert WellFormed(p);
      FormatShowsFrom(fmt, j, rest, left);
      FormatPiece(fmt, i, p, args);
      var tail := Format(fmt, j, left).value;
      OutputPiece(ps, args, if p.Integer? then PieceText(p, args[0]) else PlainText(p), tail);
    }
  }

  lemma AtEnd(fmt: string, i: nat)
    requires From(fmt, i, "")
    ensures i == |fmt|
  {}

  /** What is printed for a piece that is no directive. */
  function PlainText(p: Piece): string
    requires !p.Integer?
  {
    match p
    case Literal(text) => text
    case Percent => "%"
    case Unknown(conv) => "%" + [conv]
  }

  lemma FormatPiece(fmt: string, i: nat, p: Piece, args: seq<Word>)
    requires At(fmt, i, Written(p)) && WellFormed(p) && (p.Integer? ==> args != [])
    ensures i + |Written(p)| <= |fmt|
    ensures var j := i + |Written(p)|;
            if p.Integer? then
              IsConversion(p.conv) && Shows(p, args[0], PieceText(p, args[0])) &&
              Format(fmt, i, args) == Prepended(PieceText(p, args[0]), Format(fmt, j, args[1..]))
            else Format(fmt, i, args) == Prepended(PlainText(p), Format(fmt, j, args))
  {
    AtFits(fmt, i, Written(p));
    hide Format, At, PieceText, Shows;
    match p
    case Literal(text) => FormatLiteral(fmt, i, text, args);
    case Percent => FormatPercent(fmt, i, args);
    case Unknown(c) => FormatUnknown(fmt, i, c, args);
    case Integer(_, _, _, _, _) =>
      FormatInteger(fmt, i, p, args);
      TextShows(p, args[0]);
  }

  lemma AtFits(fmt: string, i: nat, s: string)
    requires At(fmt, i, s)
    ensures i + |s| <= |fmt|
  {}

  lemma OutputPiece(ps: seq<Piece>, args: seq<Word>, text: string, tail: string)
    requires ps != [] && (ps[0].Integer? ==> args != [])
    requires match ps[0]
             case Integer(_, _, _, _, _) => Shows(ps[0], args[0], text)
             case _ => text == PlainText(ps[0])
    requires Output(ps[1..], if ps[0].Integer? then args[1..] else args, tail)
    ensures Output(ps, args, text + tail)
  {
    assert (text + tail)[..|text|] == text && (text + tail)[|text|..] == tail;
    hide Shows;
  }

  /** A format string that is written with some pieces prints what they ask for: literal text and percent signs as they
      are, and for each directive the next argument with the directive's sign, prefix, padding and digits. */
  lemma FormatShows(ps: seq<Piece>, args: seq<Word>)
    requires AllWellFormed(ps) && Integers(ps) <= |args|
    ensures Format(WrittenAll(ps), 0, args).Some? && Output(ps, args, Format(WrittenAll(ps), 0, args).value)
  {
    hide *;
    FromStart(WrittenAll(ps));
    FormatShowsFrom(WrittenAll(ps), 0, ps, args);
  }

  lemma FromStart(s: string)
    ensures From(s, 0, s)
  {
    assert s[0..] == s;
  }

  // ----- these demands leave no choice -----

  lemma DigitUnique(c: char, d: char, base: nat, upper: bool)
    requires base in {2, 8, 10, 16} && DigitOf(c) == DigitOf(d) && 0 <= DigitOf(c) < base
    requires (if upper then c <= 'Z' else !('A' <= c <= 'Z')) && if upper then d <= 'Z' else !('A' <= d <= 'Z')
    ensures c == d
  {}

  lemma MultipleUnique(v: int, m: int, w: int, n: int, base: nat)
    requires base in {2, 8, 10, 16} && 0 <= m < base && 0 <= n < base && Multiple(v, base) + m == Multiple(w, base) + n
    ensures v == w && m == n
  {}

  lemma NumeralParts(s: string, base: nat, upper: bool)
    requires IsNumeral(s, base, upper)
    ensures var c := s[|s| - 1];
            0 <= DigitOf(c) < base && (if upper then c <= 'Z' else !('A' <= c <= 'Z')) &&
            Named(s, base) == Multiple(Named(s[..|s| - 1], base), base) + DigitOf(c)
    ensures |s| > 1 ==> IsNumeral(s[..|s| - 1], base, upper) && s[0] != '0'
  {
    hide DigitOf, Multiple;
  }

  lemma {:induction false} NumeralPositive(s: string, base: nat, upper: bool)
    requires base in {2, 8, 10, 16} && IsNumeral(s, base, upper) && s[0] != '0'
    ensures Named(s, base) > 0
  {
    NumeralParts(s, base, upper);
    if |s| > 1 {
      NumeralPositive(s[..|s| - 1], base, upper);
      hide Named, IsNumeral, DigitOf;
    } else {
      assert s[..0] == "";
      NotZero(s[0]);
      hide IsNumeral, DigitOf;
    }
  }

  lemma NotZero(c: char)
    requires c != '0' && DigitOf(c) >= 0
    ensures DigitOf(c) > 0
  {}

  /** A number has one numeral. */
  lemma {:induction false} NumeralUnique(s: string, t: string, base: nat, upper: bool)
    requires base in {2, 8, 10, 16} && IsNumeral(s, base, upper) && IsNumeral(t, base, upper)
    requires Named(s, base) == Named(t, base)
    ensures s == t
    decreases |s|
  {
    NumeralParts(s, base, upper);
    NumeralParts(t, base, upper);
    var f, g := s[..|s| - 1], t[..|t| - 1];
    var c, d := s[|s| - 1], t[|t| - 1];
    assert s == f + [c] && t == g + [d];
    FrontPositive(s, base, upper);
    FrontPositive(t, base, upper);
    hide Named, IsNumeral, DigitOf, Multiple;
    MultipleUnique(Named(f, base), DigitOf(c), Named(g, base), DigitOf(d), base);
    DigitUnique(c, d, base, upper);
    if |s| > 1 && |t| > 1 {
      NumeralUnique(f, g, base, upper);
    }
  }

  lemma FrontPositive(s: string, base: nat, upper: bool)
    requires base in {2, 8, 10, 16} && IsNumeral(s, base, upper)
    ensures if |s| > 1 then Named(s[..|s| - 1], base) > 0 else s[..|s| - 1] == "" && Named(s[..|s| - 1], base) == 0
  {
    NumeralParts(s, base, upper);
    if |s| > 1 {
      assert s[..|s| - 1][0] == s[0];
      hide IsNumeral, Named;
      NumeralPositive(s[..|s| - 1], base, upper);
    }
  }

  /** A directive shows an argument in one way. */
  lemma ShowsUnique(p: Piece, u: Word, s: string, t: string)
    requires p.Integer? && Shows(p, u, s) && Shows(p, u, t)
    ensures s == t
  {
    hide *;
    var l, z, d, r := Layout(p, u, s);
    var l', z', d', r' := Layout(p, u, t);
    LaidDigits(p, u, s, l, z, d, r);
    LaidDigits(p, u, t, l', z', d', r');
    NumeralUnique(d, d', Radix(p.conv), p.conv == 'X');
    LaidSizes(p, u, s, l, z, d, r, BodySize(p, u, d));
    LaidSizes(p, u, t, l', z', d, r', BodySize(p, u, d));
  }

  lemma Layout(p: Piece, u: Word, text: string) returns (left: nat, zeros: nat, digits: string, right: nat)
    requires p.Integer? && Shows(p, u, text)
    ensures Laid(p, u, text, left, zeros, digits, right)
  {
    left, zeros, digits, right :| Laid(p, u, text, left, zeros, digits, right);
  }

  lemma LaidDigits(p: Piece, u: Word, text: string, left: nat, zeros: nat, digits: string, right: nat)
    requires p.Integer? && Laid(p, u, text, left, zeros, digits, right)
    ensures text == Fill(' ', left) + Sign(p, u) + Prefix(p, u) + Fill('0', zeros) + digits + Fill(' ', right)
    ensures IsNumeral(digits, Radix(p.conv), p.conv == 'X') && Radix(p.conv) in {2, 8, 10, 16}
    ensures Named(digits, Radix(p.conv)) == (if p.conv == 'd' || p.conv == 'i' then Abs(Signed(u)) else u)
  {
    hide Sign, Prefix, BodySize, Width, IsNumeral, Named, Fill;
  }

  /** The numbers of blanks and zeros, from the size without blanks. */
  lemma LaidSizes(p: Piece, u: Word, text: string, left: nat, zeros: nat, digits: string, right: nat, body: int)
    requires p.Integer? && Laid(p, u, text, left, zeros, digits, right) && body == BodySize(p, u, digits)
    ensures left == if '-' in p.flags || '0' in p.flags then 0 else Larger(body, Width(p)) - body
    ensures right == if '-' in p.flags then Larger(body, Width(p) + |Prefix(p, u)|) - body else 0
    ensures zeros == (if '-' !in p.flags && '0' in p.flags then Larger(body, Width(p)) else body)
                     - |Sign(p, u)| - |Prefix(p, u)| - |digits|
  {
    hide Sign, Prefix, BodySize, Width, IsNumeral, Named, Larger, Radix, Fill;
    LengthsAdd(Fill(' ', left), Sign(p, u), Prefix(p, u), Fill('0', zeros), digits, Fill(' ', right));
    FillAtLeast(' ', left);
    FillAtLeast('0', zeros);
    FillAtLeast(' ', right);
  }

  /** The pieces and the arguments determine the output. */
  lemma {:induction false} OutputUnique(ps: seq<Piece>, args: seq<Word>, s: string, t: string)
    requires Output(ps, args, s) && Output(ps, args, t)
    ensures s == t
    decreases |ps|
  {
    if ps != [] {
      hide Shows;
      match ps[0]
      case Literal(text) =>
        OutputUnique(ps[1..], args, s[|text|..], t[|text|..]);
        Rejoined(s, |text|);
        Rejoined(t, |text|);
      case Percent =>
        OutputUnique(ps[1..], args, s[1..], t[1..]);
        Rejoined(s, 1);
        Rejoined(t, 1);
      case Unknown(_) =>
        OutputUnique(ps[1..], args, s[2..], t[2..]);
        Rejoined(s, 2);
        Rejoined(t, 2);
      case Integer(_, _, _, _, _) =>
        var k: nat :| k <= |s| && Shows(ps[0], args[0], s[..k]) && Output(ps[1..], args[1..], s[k..]);
        var l: nat :| l <= |t| && Shows(ps[0], args[0], t[..l]) && Output(ps[1..], args[1..], t[l..]);
        ShowsUnique(ps[0], args[0], s[..k], t[..l]);
        OutputUnique(ps[1..], args[1..], s[k..], t[l..]);
        Rejoined(s, k);
        Rejoined(t, l);
    }
  }

  lemma Rejoined(s: string, k: nat)
    requires k <= |s|
    ensures s == s[..k] + s[k..]
  {}
}
