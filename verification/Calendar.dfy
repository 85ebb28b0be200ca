/** libs/src/libc/time.c: the calendar.  `__offtime` turns seconds into a broken-down time by guessing years,
    `_mktime` turns a broken-down time into seconds by a closed formula; they invert each other. */
module Calendar {
  import opened Words

  const DAY := 86400

  // ----- the Gregorian calendar -----

  predicate IsLeap(y: int) {
    y % 4 == 0 && (y % 100 != 0 || y % 400 == 0)
  }

  function YearLength(y: int): int {
    if IsLeap(y) then 366 else 365
  }

  /** Leap days in the years up to `y`, counted from year zero. */
  function Leaps(y: int): int {
    y / 4 - y / 100 + y / 400
  }

  /** Days from 1970-01-01 to the first day of year `y`. */
  function DaysBefore(y: int): int {
    365 * y + Leaps(y - 1) - 719527
  }

  lemma NextYear(y: int)
    ensures DaysBefore(y + 1) == DaysBefore(y) + YearLength(y) && DaysBefore(1970) == 0
  {
    LeapStep(y);
  }

  lemma LeapStep(y: int)
    ensures Leaps(y) - Leaps(y - 1) == if IsLeap(y) then 1 else 0
  {
    StepBy(y, 4);
    StepBy(y, 100);
    StepBy(y, 400);
    LeapFacts(y);
  }

  lemma StepBy(y: int, k: int)
    requires k == 4 || k == 100 || k == 400
    ensures y / k - (y - 1) / k == if y % k == 0 then 1 else 0
  {}

  lemma LeapFacts(y: int)
    ensures y % 400 == 0 ==> y % 100 == 0
    ensures y % 100 == 0 ==> y % 4 == 0
  {}

  /** Between two years lie 365 or 366 days each. */
  lemma {:induction false} YearsApart(y: int, z: int)
    requires y <= z
    ensures 365 * (z - y) <= DaysBefore(z) - DaysBefore(y) <= 366 * (z - y)
    decreases z - y
  {
    if y < z {
      NextYear(z - 1);
      hide DaysBefore, YearLength;
      YearLengths(z - 1);
      YearsApart(y, z - 1);
    }
  }

  lemma YearLengths(y: int)
    ensures 365 <= YearLength(y) <= 366
  {}

  predicate InYear(n: int, y: int) {
    DaysBefore(y) <= n < DaysBefore(y + 1)
  }

  /** Every day lies in some year. */
  lemma {:induction false} YearExists(n: int, y: int, fuel: nat) returns (z: int)
    requires if n >= DaysBefore(y) then n - DaysBefore(y) < fuel else DaysBefore(y) - n < fuel
    ensures InYear(n, z)
    decreases fuel
  {
    NextYear(y);
    NextYear(y - 1);
    YearLengths(y);
    YearLengths(y - 1);
    hide DaysBefore, YearLength;
    if n >= DaysBefore(y + 1) {
      z := YearExists(n, y + 1, fuel - 1);
    } else if n < DaysBefore(y) {
      z := YearBelow(n, y - 1, DaysBefore(y) - n);
    } else {
      z := y;
    }
  }

  lemma {:induction false} YearBelow(n: int, y: int, fuel: nat) returns (z: int)
    requires n < DaysBefore(y + 1) && DaysBefore(y + 1) - n <= fuel
    ensures InYear(n, z)
    decreases fuel
  {
    NextYear(y);
    YearLengths(y);
    hide DaysBefore, YearLength;
    if n < DaysBefore(y) {
      z := YearBelow(n, y - 1, fuel - 365);
    } else {
      z := y;
    }
  }

  lemma YearUnique(n: int, y: int, z: int)
    requires InYear(n, y) && InYear(n, z)
    ensures y == z
  {
    hide DaysBefore;
    if y < z {
      YearsApart(y + 1, z);
    } else if z < y {
      YearsApart(z + 1, y);
    }
  }

  // ----- the year-guessing loop -----

  /** `DIV`: C division, corrected to round down. */
  function FloorDiv(a: int, b: int): (r: int)
    requires b > 0
  {
    TruncDiv(a, b) - (if TruncMod(a, b) < 0 then 1 else 0)
  }

  lemma FloorDivIs(a: int, b: int)
    requires b == 4 || b == 100 || b == 365 || b == 400
    ensures FloorDiv(a, b) == a / b
  {
    if b == 4 {
    } else if b == 100 {
    } else if b == 365 {
    }
  }

  function Distance(y: int, z: int): nat {
    if y < z then z - y else y - z
  }

  /** How far the guess is from the year of day `n`, and whether the next guess may still be wrong. */
  function Measure(n: int, y: int, z: int): nat {
    if y == z then 0 else 2 * Distance(y, z) + if (y > z) == (n == DaysBefore(z)) then 1 else 0
  }

  /** A guess gets closer: it may pass the year, but then by less, or by as much once. */
  lemma GuessCloser(n: int, y: int, z: int)
    requires InYear(n, z) && y != z
    ensures Measure(n, y + (n - DaysBefore(y)) / 365, z) < Measure(n, y, z)
  {
    var days := n - DaysBefore(y);
    var g := days / 365;
    NextYear(z);
    NextYear(z - 1);
    YearLengths(z);
    YearLengths(z - 1);
    if y < z {
      YearsApart(y, z);
      NextYear(y);
      YearLengths(y);
      GuessUp(n, y, z);
    } else {
      YearsApart(z + 1, y);
      GuessDown(n, y, z);
    }
  }

  /** From below. */
  lemma GuessUp(n: int, y: int, z: int)
    requires InYear(n, z) && y < z
    ensures var g := (n - DaysBefore(y)) / 365;
            z <= y + g && y + g - z <= 1 + (z - y) / 365 && (n == DaysBefore(z) && z - y == 1 ==> y + g == z)
  {
    YearsApart(y, z);
    NextYear(z);
    NextYear(y);
    YearLengths(z);
    YearLengths(y);
    hide DaysBefore, YearLength;
    var k, d := z - y, n - DaysBefore(z);
    assert 365 * k <= n - DaysBefore(y) <= 366 * k + 365;
  }

  /** From above. */
  lemma GuessDown(n: int, y: int, z: int)
    requires InYear(n, z) && z < y
    ensures var g := (n - DaysBefore(y)) / 365;
            y + g <= z && z - (y + g) <= 1 + (y - z) / 365 &&
            (n != DaysBefore(z) && y - z == 1 ==> y + g == z)
  {
    YearsApart(z + 1, y);
    NextYear(z);
    YearLengths(z);
    hide DaysBefore, YearLength;
    var k, d := y - z, n - DaysBefore(z);
    assert -366 * k <= n - DaysBefore(y) <= -365 * (k - 1) - 1;
  }

  // ----- broken-down times -----

  /** Days before each month, for normal and for leap years. */
  const NORMAL: seq<int> := [0, 31, 59, 90, 120, 151, 181, 212, 243, 273, 304, 334, 365]
  const LEAP: seq<int> := [0, 31, 60, 91, 121, 152, 182, 213, 244, 274, 305, 335, 366]

  function MonthStart(y: int, m: int): int
    requires 0 <= m <= 12
  {
    if IsLeap(y) then LEAP[m] else NORMAL[m]
  }

  /** The fields of `struct tm`, with the full year and months from zero. */
  datatype Civil = Civil(year: int, mon: int, mday: int, hour: int, min: int, sec: int)
  {
    predicate Valid() {
      0 <= mon < 12 && 1 <= mday <= MonthStart(year, mon + 1) - MonthStart(year, mon) &&
      0 <= hour < 24 && 0 <= min < 60 && 0 <= sec < 60
    }

    function YearDay(): int
      requires Valid()
    {
      MonthStart(year, mon) + mday - 1
    }

    function Day(): int
      requires Valid()
    {
      DaysBefore(year) + YearDay()
    }

    /** Seconds since the epoch. */
    function Seconds(): int
      requires Valid()
    {
      ((Day() * 24 + hour) * 60 + min) * 60 + sec
    }
  }

  lemma MonthOrder(y: int, m: int, k: int)
    requires 0 <= m < k <= 12
    ensures MonthStart(y, m) < MonthStart(y, k)
    ensures 0 <= MonthStart(y, m) && MonthStart(y, k) <= YearLength(y)
  {}

  lemma YearDayInYear(c: Civil)
    requires c.Valid()
    ensures 0 <= c.YearDay() < YearLength(c.year) && InYear(c.Day(), c.year)
  {
    MonthOrder(c.year, c.mon, c.mon + 1);
    NextYear(c.year);
    hide DaysBefore, MonthStart;
  }

  lemma SameMonth(c: Civil, d: Civil)
    requires c.Valid() && d.Valid() && c.year == d.year && c.YearDay() == d.YearDay()
    ensures c.mon == d.mon && c.mday == d.mday
  {
    if c.mon < d.mon {
      MonthReaches(c.year, c.mon + 1, d.mon);
    } else if d.mon < c.mon {
      MonthReaches(c.year, d.mon + 1, c.mon);
    }
    hide MonthStart;
  }

  lemma MonthReaches(y: int, m: int, k: int)
    requires 0 <= m <= k <= 12
    ensures MonthStart(y, m) <= MonthStart(y, k)
  {
    if m < k {
      MonthOrder(y, m, k);
    }
  }

  /** A number of seconds has one broken-down time. */
  lemma CivilUnique(c: Civil, d: Civil)
    requires c.Valid() && d.Valid() && c.Seconds() == d.Seconds()
    ensures c == d
  {
    YearDayInYear(c);
    YearDayInYear(d);
    TimeOfDayUnique(c.Day(), c.hour, c.min, c.sec, d.Day(), d.hour, d.min, d.sec);
    hide DaysBefore, MonthStart;
    YearUnique(c.Day(), c.year, d.year);
    SameMonth(c, d);
  }

  lemma TimeOfDayUnique(d: int, h: int, m: int, s: int, d': int, h': int, m': int, s': int)
    requires 0 <= h < 24 && 0 <= m < 60 && 0 <= s < 60 && 0 <= h' < 24 && 0 <= m' < 60 && 0 <= s' < 60
    requires ((d * 24 + h) * 60 + m) * 60 + s == ((d' * 24 + h') * 60 + m') * 60 + s'
    ensures d == d' && h == h' && m == m' && s == s'
  {
    assert ((d * 24 + h) * 60 + m) == ((d' * 24 + h') * 60 + m');
    assert d * 24 + h == d' * 24 + h';
  }

  // ----- struct tm and __offtime -----

  class Tm {
    var sec: int
    var min: int
    var hour: int
    var mday: int
    var mon: int
    var year: int
    var wday: int
    var yday: int

    constructor ()
    {
    }

    /** The civil time that the fields stand for. */
    function Fields(): Civil
      reads this
    {
      Civil(year + 1900, mon, mday, hour, min, sec)
    }

    /** `__offtime`: from every number of seconds, the valid broken-down time that stands for it, with its
        weekday (the epoch was a Thursday) and its day in the year. */
    method Offtime(t: int, offset: int)
      modifies this
      ensures Fields().Valid() && Fields().Seconds() == t + offset
      ensures wday == (4 + Fields().Day()) % 7 && yday == Fields().YearDay()
    {
      hide IsLeap, DaysBefore, MonthStart, TruncDiv, TruncMod, YearLength;
      var days, rem := DayAndRest(t, offset);
      hour := rem / 3600;
      rem := rem % 3600;
      min := rem / 60;
      sec := rem % 60;
      ghost var n := days;
      Weekday(n);
      wday := TruncMod(4 + days, 7);
      if wday < 0 {
        wday := wday + 7;
      }
      var y;
      y, days := GuessYear(days);
      year := y - 1900;
      yday := days;
      mon := MonthOf(y, days);
      mday := days - MonthStart(y, mon) + 1;
      assert Fields().YearDay() == days && Fields().Day() == n;
    }

    /** `gmtime`. */
    method Gmtime(t: int)
      modifies this
      ensures Fields().Valid() && Fields().Seconds() == t
      ensures wday == (4 + Fields().Day()) % 7 && yday == Fields().YearDay()
    {
      Offtime(t, 0);
    }
  }

  /** The day and the second in it, after both corrections. */
  method DayAndRest(t: int, offset: int) returns (days: int, rem: int)
    ensures days * DAY + rem == t + offset && 0 <= rem < DAY
  {
    days, rem := TruncDiv(t, DAY), TruncMod(t, DAY);
    rem := rem + offset;
    while rem < 0
      invariant days * DAY + rem == t + offset
    {
      rem := rem + DAY;
      days := days - 1;
    }
    while rem >= DAY
      invariant days * DAY + rem == t + offset && rem >= 0
    {
      rem := rem - DAY;
      days := days + 1;
    }
  }

  lemma Weekday(n: int)
    ensures var w := TruncMod(4 + n, 7);
            (if w < 0 then w + 7 else w) == (4 + n) % 7
  {}

  /** The loop that guesses the year: it ends for every day, and keeps the day it stands for. */
  method GuessYear(n: int) returns (y: int, days: int)
    ensures DaysBefore(y) + days == n && 0 <= days < YearLength(y)
  {
    hide DaysBefore, YearLength, Leaps, Measure, FloorDiv, InYear;
    y, days := 1970, n;
    NextYear(1970);
    ghost var z := YearExists(n, 1970, Distance(n, 0) + 1);
    while days < 0 || days >= YearLength(y)
      invariant DaysBefore(y) + days == n
      decreases Measure(n, y, z)
    {
      StillWrong(n, y, z);
      GuessCloser(n, y, z);
      GuessedDays(y, days);
      var yg := y + FloorDiv(days, 365);
      days := days - ((yg - y) * 365 + LeapsThrough(yg - 1) - LeapsThrough(y - 1));
      y := yg;
    }
  }

  /** `LEAPS_THRU_END_OF`. */
  function LeapsThrough(y: int): int {
    FloorDiv(y, 4) - FloorDiv(y, 100) + FloorDiv(y, 400)
  }

  lemma LeapsThroughIs(y: int)
    ensures LeapsThrough(y) == Leaps(y)
  {
    FloorDivIs(y, 4);
    FloorDivIs(y, 100);
    FloorDivIs(y, 400);
    hide FloorDiv;
  }

  lemma GuessedDays(y: int, days: int)
    ensures FloorDiv(days, 365) == days / 365
    ensures var yg := y + FloorDiv(days, 365);
            DaysBefore(yg) + days - ((yg - y) * 365 + LeapsThrough(yg - 1) - LeapsThrough(y - 1)) == DaysBefore(y) + days
  {
    FloorDivIs(days, 365);
    LeapsThroughIs(y + days / 365 - 1);
    LeapsThroughIs(y - 1);
    hide FloorDiv, Leaps, LeapsThrough;
  }

  lemma StillWrong(n: int, y: int, z: int)
    requires InYear(n, z) && !(0 <= n - DaysBefore(y) < YearLength(y))
    ensures y != z
  {
    NextYear(y);
    hide DaysBefore, YearLength;
  }

  /** The month search, from December down. */
  method MonthOf(y: int, days: int) returns (m: int)
    requires 0 <= days < YearLength(y)
    ensures 0 <= m < 12 && MonthStart(y, m) <= days < MonthStart(y, m + 1)
  {
    m := 11;
    while days < MonthStart(y, m)
      invariant 0 <= m <= 11 && days < MonthStart(y, m + 1)
    {
      m := m - 1;
    }
  }

  // ----- _mktime -----

  /** `_mktime`, on unsigned 32-bit numbers. */
  function MkTime(year: int, mon: int, day: int, hour: int, min: int, sec: int): Word
  {
    var early := mon - 2 <= 0;
    var m := if early then mon - 2 + 12 else mon - 2;
    var y := Wrap(if early then year - 1 else year);
    Wrap(Wrap(Wrap(Wrap(Wrap(Wrap(y / 4 - y / 100 + y / 400 + 367 * m / 12 + day) + y * 365 - 719499) * 24 + hour) * 60 + min)) * 60 + sec)
  }

  /** `timegm`. */
  function TimeGm(c: Civil): Word {
    MkTime(c.year, c.mon + 1, c.mday, c.hour, c.min, c.sec)
  }

  lemma MonthFormula(y: int, mon: int)
    requires 1 <= mon <= 12
    ensures var early := mon <= 2;
            var m := if early then mon + 10 else mon - 2;
            var z := if early then y - 1 else y;
            365 * z + Leaps(z) + 367 * m / 12 - 719499 == DaysBefore(y) + MonthStart(y, mon - 1) - 1
  {
    LeapStep(y);
    hide Leaps;
  }

  lemma WrapSteps(a: int, b: int, h: int, m: int, s: int)
    ensures Wrap(Wrap(Wrap(Wrap(Wrap(Wrap(a) + b) * 24 + h) * 60 + m)) * 60 + s) == Wrap((((a + b) * 24 + h) * 60 + m) * 60 + s)
  {
    WrapTimes(Wrap(a) + b, a + b, 24, h);
    WrapTimes(Wrap(Wrap(a) + b) * 24 + h, (a + b) * 24 + h, 60, m);
    WrapTimes(Wrap(Wrap(Wrap(a) + b) * 24 + h) * 60 + m, ((a + b) * 24 + h) * 60 + m, 60, s);
  }

  lemma WrapTimes(x: int, y: int, k: int, d: int)
    requires k == 24 || k == 60
    ensures Wrap(x) == Wrap(y) ==> Wrap(Wrap(x) * k + d) == Wrap(y * k + d)
  {}

  /** `timegm` counts the seconds, modulo the width of its result, for every valid time from year one on. */
  lemma TimeGmCounts(c: Civil)
    requires c.Valid() && 1 <= c.year < 0x1_0000_0000
    ensures TimeGm(c) == Wrap(c.Seconds())
  {
    hide DaysBefore, MonthStart, Leaps, Wrap, MkTime;
    MonthFormula(c.year, c.mon + 1);
    var early := c.mon + 1 <= 2;
    var m, y := if early then c.mon + 11 else c.mon - 1, if early then c.year - 1 else c.year;
    MkTimeIs(c.year, c.mon + 1, c.mday, c.hour, c.min, c.sec, m, y);
  }

  lemma MkTimeIs(year: int, mon: int, day: int, hour: int, min: int, sec: int, m: int, y: int)
    requires 1 <= mon <= 12 && 1 <= year < 0x1_0000_0000
    requires m == (if mon <= 2 then mon + 10 else mon - 2) && y == if mon <= 2 then year - 1 else year
    ensures MkTime(year, mon, day, hour, min, sec) ==
            Wrap((((Leaps(y) + 367 * m / 12 + day + (y * 365 - 719499)) * 24 + hour) * 60 + min) * 60 + sec)
  {
    hide Wrap;
    WrapKeeps(y);
    WrapSteps(Leaps(y) + 367 * m / 12 + day, y * 365 - 719499, hour, min, sec);
  }

  lemma WrapKeeps(y: Word)
    ensures Wrap(y) == y
  {}

  /** `timegm` undoes `gmtime`: a valid time that stands for `t` seconds gives `t` back. */
  lemma TimegmOfGmtime(t: int, c: Civil)
    requires -0x8000_0000 <= t < 0x8000_0000 && c.Valid() && c.Seconds() == t
    ensures c.year >= 1 && Signed(TimeGm(c)) == t
  {
    hide TimeGm, DaysBefore, MonthStart, Wrap, Signed;
    YearOf32Bits(t, c);
    TimeGmCounts(c);
    SignedWrap(t);
  }

  lemma SignedWrap(t: int)
    requires -0x8000_0000 <= t < 0x8000_0000
    ensures Signed(Wrap(t)) == t
  {}

  lemma YearOf32Bits(t: int, c: Civil)
    requires -0x8000_0000 <= t < 0x8000_0000 && c.Valid() && c.Seconds() == t
    ensures 1901 <= c.year <= 2038
  {
    YearDayInYear(c);
    assert -24856 <= c.Day() <= 24856;
    NextYear(c.year);
    assert DaysBefore(1901) == -25202 && DaysBefore(2039) == 25202;
    hide DaysBefore;
    if c.year < 1901 {
      YearsApart(c.year + 1, 1901);
    } else if c.year > 2038 {
      YearsApart(2039, c.year);
    }
  }

  /** `gmtime` undoes `timegm`: the fields of a valid time come back. */
  lemma GmtimeOfTimegm(c: Civil, d: Civil)
    requires c.Valid() && -0x8000_0000 <= c.Seconds() < 0x8000_0000
    requires d.Valid() && d.Seconds() == Signed(TimeGm(c))
    ensures d == c
  {
    hide TimeGm, DaysBefore, MonthStart;
    TimegmOfGmtime(c.Seconds(), c);
    CivilUnique(c, d);
  }

  // ----- the calendar of the Gregorian reform -----

  /** Thirty days have April, June, September and November; February has 29 in years that four divides, but not in those
      that a hundred divides, unless four hundred does. */
  lemma MonthLengths(y: int, m: int)
    requires 0 <= m < 12
    ensures MonthStart(y, m + 1) - MonthStart(y, m) ==
            if m == 1 then (if y % 400 == 0 then 29 else if y % 100 == 0 then 28 else if y % 4 == 0 then 29 else 28)
            else if m in {3, 5, 8, 10} then 30 else 31
    ensures MonthStart(y, 0) == 0 && MonthStart(y, 12) == YearLength(y)
  {
    LeapFacts(y);
  }

  /** New year's days around three centuries, and the four hundred years after which the calendar repeats. */
  lemma KnownYears(y: int)
    ensures DaysBefore(1900) == -25567 && DaysBefore(1901) == -25202
    ensures DaysBefore(2000) == 10957 && DaysBefore(2001) == 11323
    ensures DaysBefore(2100) == 47482 && DaysBefore(2101) == 47847
    ensures DaysBefore(y + 400) == DaysBefore(y) + 146097
  {}

  /** The ends of the 32-bit times, and noon of a leap day. */
  lemma KnownTimes()
    ensures var c := Civil(1901, 11, 13, 20, 45, 52); c.Valid() && c.Seconds() == -0x8000_0000
    ensures var c := Civil(2038, 0, 19, 3, 14, 7); c.Valid() && c.Seconds() == 0x7FFF_FFFF
    ensures var c := Civil(2000, 1, 29, 12, 0, 0); c.Valid() && c.Seconds() == 951825600 && (4 + c.Day()) % 7 == 2
  {}
}
