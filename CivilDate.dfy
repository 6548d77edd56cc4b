/**
 * Timezone-free civil dates in the proleptic Gregorian calendar: leap years,
 * month lengths, a day ordinal, weekdays, and the `YYYY-MM-DD` text form that
 * lessons store in their `date` field.
 */
module CivilDate {
  import opened Wrappers

  datatype Date = Date(year: int, month: int, day: int)

  predicate IsLeapYear(y: int) {
    y % 4 == 0 && (y % 100 != 0 || y % 400 == 0)
  }

  /** Length of month `m` (1-based) of year `y`; what `new Date(y, m, 0).getDate()` yields. */
  function DaysInMonth(y: int, m: int): (n: int)
    requires 1 <= m <= 12
    ensures 28 <= n <= 31
    ensures n == 29 <==> m == 2 && IsLeapYear(y)
    ensures n == 28 <==> m == 2 && !IsLeapYear(y)
    ensures n == 31 <==> m == 1 || m == 3 || m == 5 || m == 7 || m == 8 || m == 10 || m == 12
  {
    if m == 2 then (if IsLeapYear(y) then 29 else 28)
    else if m == 4 || m == 6 || m == 9 || m == 11 then 30
    else 31
  }

  predicate ValidDate(d: Date) {
    1 <= d.month <= 12 && 1 <= d.day <= DaysInMonth(d.year, d.month)
  }

  function DaysInYear(y: int): int {
    if IsLeapYear(y) then 366 else 365
  }

  /** Days of year `y` before day 1 of month `m`. */
  function DaysBeforeMonth(y: int, m: int): int
    requires 1 <= m <= 13
  {
    if m == 1 then 0 else DaysBeforeMonth(y, m - 1) + DaysInMonth(y, m - 1)
  }

  /** Days from 0000-01-01 to 01-01 of year `y` (negative before year 0). */
  function DaysBeforeYear(y: int): int {
    365 * y + (y + 3) / 4 - (y + 99) / 100 + (y + 399) / 400
  }

  /** Number of days since 0000-01-01. */
  function Ordinal(d: Date): int
    requires ValidDate(d)
  {
    DaysBeforeYear(d.year) + DaysBeforeMonth(d.year, d.month) + d.day - 1
  }

  /** Day of the week, 0 = Sunday ... 6 = Saturday, as `Date.getDay` numbers them. 0000-01-01 was a Saturday. */
  function Weekday(d: Date): (w: int)
    requires ValidDate(d)
    ensures 0 <= w < 7
  {
    (Ordinal(d) + 6) % 7
  }

  /** The next calendar day, what `setDate(getDate() + 1)` produces. */
  function NextDay(d: Date): (r: Date)
    requires ValidDate(d)
    ensures ValidDate(r)
  {
    if d.day < DaysInMonth(d.year, d.month) then Date(d.year, d.month, d.day + 1)
    else if d.month < 12 then Date(d.year, d.month + 1, 1)
    else Date(d.year + 1, 1, 1)
  }

  /** The last day of the month `d` lies in. */
  function EndOfMonth(d: Date): (r: Date)
    requires ValidDate(d)
    ensures ValidDate(r) && r.year == d.year && r.month == d.month && d.day <= r.day
    ensures r.day == DaysInMonth(d.year, d.month) && !ValidDate(Date(r.year, r.month, r.day + 1))
  {
    Date(d.year, d.month, DaysInMonth(d.year, d.month))
  }

  /** Chronological order, as `<=` on two JavaScript dates compares them. */
  predicate DateLe(a: Date, b: Date) {
    a.year < b.year || (a.year == b.year && (a.month < b.month || (a.month == b.month && a.day <= b.day)))
  }

  // ---- Ordinal arithmetic ----

  /** Leap years in [y, y + 1) counted by each term of `DaysBeforeYear`. */
  lemma LeapTermSteps(y: int)
    ensures (y + 4) / 4 - (y + 3) / 4 == if y % 4 == 0 then 1 else 0
    ensures (y + 100) / 100 - (y + 99) / 100 == if y % 100 == 0 then 1 else 0
    ensures (y + 400) / 400 - (y + 399) / 400 == if y % 400 == 0 then 1 else 0
  {
    LeapTermStep4(y);
    LeapTermStep100(y);
    LeapTermStep400(y);
  }

  lemma LeapTermStep4(y: int)
    ensures (y + 4) / 4 - (y + 3) / 4 == if y % 4 == 0 then 1 else 0
  {
    var q := y / 4;
    assert y == 4 * q + y % 4;
    assert (y + 4) / 4 == q + 1;
  }

  lemma LeapTermStep100(y: int)
    ensures (y + 100) / 100 - (y + 99) / 100 == if y % 100 == 0 then 1 else 0
  {
    var q := y / 100;
    assert y == 100 * q + y % 100;
    assert (y + 100) / 100 == q + 1;
  }

  lemma LeapTermStep400(y: int)
    ensures (y + 400) / 400 - (y + 399) / 400 == if y % 400 == 0 then 1 else 0
  {
    var q := y / 400;
    assert y == 400 * q + y % 400;
    assert (y + 400) / 400 == q + 1;
  }

  lemma DaysBeforeYearStep(y: int)
    ensures DaysBeforeYear(y + 1) == DaysBeforeYear(y) + DaysInYear(y)
  {
    LeapTermSteps(y);
    DivisorChain(y);
    var a := if y % 4 == 0 then 1 else 0;
    var b := if y % 100 == 0 then 1 else 0;
    var c := if y % 400 == 0 then 1 else 0;
    assert DaysBeforeYear(y + 1) == DaysBeforeYear(y) + 365 + a - b + c;
    assert DaysInYear(y) == 365 + a - b + c;
  }

  /** A multiple of 400 is a multiple of 100, and a multiple of 100 a multiple of 4. */
  lemma DivisorChain(y: int)
    ensures y % 400 == 0 ==> y % 100 == 0
    ensures y % 100 == 0 ==> y % 4 == 0
  {
    if y % 400 == 0 {
      var q := y / 400;
      assert y == 100 * (4 * q);
    }
    if y % 100 == 0 {
      var q := y / 100;
      assert y == 4 * (25 * q);
    }
  }

  lemma DaysBeforeYearEnd(y: int)
    ensures DaysBeforeMonth(y, 13) == DaysInYear(y)
  {
    var f := DaysInMonth(y, 2);
    assert DaysBeforeMonth(y, 2) == 31;
    assert DaysBeforeMonth(y, 3) == 31 + f;
    assert DaysBeforeMonth(y, 4) == 62 + f;
    assert DaysBeforeMonth(y, 5) == 92 + f;
    assert DaysBeforeMonth(y, 6) == 123 + f;
    assert DaysBeforeMonth(y, 7) == 153 + f;
    assert DaysBeforeMonth(y, 8) == 184 + f;
    assert DaysBeforeMonth(y, 9) == 215 + f;
    assert DaysBeforeMonth(y, 10) == 245 + f;
    assert DaysBeforeMonth(y, 11) == 276 + f;
    assert DaysBeforeMonth(y, 12) == 306 + f;
  }

  /** Moving to the next day advances the ordinal by exactly one, also across month and year ends. */
  lemma {:induction false} NextDayOrdinal(d: Date)
    requires ValidDate(d)
    ensures Ordinal(NextDay(d)) == Ordinal(d) + 1
  {
    if d.day == DaysInMonth(d.year, d.month) && d.month == 12 {
      DaysBeforeYearStep(d.year);
      DaysBeforeYearEnd(d.year);
    }
  }

  /** Weekdays cycle: the next day's weekday follows this one's. */
  lemma NextDayWeekday(d: Date)
    requires ValidDate(d)
    ensures Weekday(NextDay(d)) == (Weekday(d) + 1) % 7
  {
    NextDayOrdinal(d);
    ModSevenShift(Ordinal(d) + 6, 1);
  }

  /** Taking the remainder by 7 first does not change a later remainder. */
  lemma ModSevenShift(a: int, k: int)
    ensures (a % 7 + k) % 7 == (a + k) % 7
  {
    var q := a / 7;
    assert a == 7 * q + a % 7;
  }

  /** Within one month, the weekday advances by one per day. */
  lemma WeekdayWithinMonth(y: int, m: int, a: int, b: int)
    requires ValidDate(Date(y, m, a)) && ValidDate(Date(y, m, b))
    ensures Weekday(Date(y, m, b)) == (Weekday(Date(y, m, a)) + (b - a)) % 7
  {
    assert Ordinal(Date(y, m, b)) == Ordinal(Date(y, m, a)) + (b - a);
    ModSevenShift(Ordinal(Date(y, m, a)) + 6, b - a);
  }

  /** Day 1 of the next month lies `DaysInMonth` days after day 1 of this one. */
  lemma MonthLengthByOrdinal(y: int, m: int)
    requires 1 <= m <= 12
    ensures var next := if m < 12 then Date(y, m + 1, 1) else Date(y + 1, 1, 1);
            Ordinal(next) - Ordinal(Date(y, m, 1)) == DaysInMonth(y, m)
  {
    if m == 12 {
      DaysBeforeYearStep(y);
      DaysBeforeYearEnd(y);
    }
  }

  // ---- Text form ----

  predicate IsDigit(c: char) {
    '0' <= c <= '9'
  }

  function DigitValue(c: char): int
    requires IsDigit(c)
  {
    c as int - '0' as int
  }

  function DigitChar(n: int): (c: char)
    requires 0 <= n < 10
    ensures IsDigit(c) && DigitValue(c) == n
  {
    ('0' as int + n) as char
  }

  /** `String(n).padStart(2, "0")` for 0 <= n < 100. */
  function Pad2(n: int): string
    requires 0 <= n < 100
  {
    [DigitChar(n / 10), DigitChar(n % 10)]
  }

  function Pad4(n: int): string
    requires 0 <= n < 10000
  {
    Pad2(n / 100) + Pad2(n % 100)
  }

  /** Decimal text of an integer without padding, as `String(n)` or a template literal gives it. */
  function IntToString(n: int): (s: string)
    decreases if n < 0 then 1 - n else n
  {
    if n < 0 then "-" + IntToString(-n)
    else if n < 10 then [DigitChar(n)]
    else IntToString(n / 10) + [DigitChar(n % 10)]
  }

  predicate InIsoRange(d: Date) {
    ValidDate(d) && 0 <= d.year <= 9999
  }

  /** `YYYY-MM-DD`, the form of a lesson's `date` field and of `toISOString().split('T')[0]`. */
  function FormatIsoDate(d: Date): (s: string)
    requires InIsoRange(d)
    ensures |s| == 10 && s[4] == '-' && s[7] == '-'
  {
    Pad4(d.year) + "-" + Pad2(d.month) + "-" + Pad2(d.day)
  }

  /** `YYYY-MM`, the month key used throughout. */
  function FormatIsoMonth(year: int, month: int): (s: string)
    requires 0 <= year <= 9999 && 1 <= month <= 12
    ensures |s| == 7
  {
    Pad4(year) + "-" + Pad2(month)
  }

  predicate IsoShape(s: string) {
    |s| == 10 && s[4] == '-' && s[7] == '-'
    && forall i :: 0 <= i < 10 && i != 4 && i != 7 ==> IsDigit(s[i])
  }

  /** Reads a `YYYY-MM-DD` date; `None` for any other text or for a day the month does not have. */
  function ParseIsoDate(s: string): (r: Option<Date>)
    ensures r.Some? ==> InIsoRange(r.value) && IsoShape(s)
  {
    if !IsoShape(s) then None
    else
      var d := Date(
        1000 * DigitValue(s[0]) + 100 * DigitValue(s[1]) + 10 * DigitValue(s[2]) + DigitValue(s[3]),
        10 * DigitValue(s[5]) + DigitValue(s[6]),
        10 * DigitValue(s[8]) + DigitValue(s[9]));
      if ValidDate(d) then Some(d) else None
  }

  lemma DigitCharValue(c: char)
    requires IsDigit(c)
    ensures DigitChar(DigitValue(c)) == c
  {
  }

  lemma Pad2Read(n: int)
    requires 0 <= n < 100
    ensures var p := Pad2(n); IsDigit(p[0]) && IsDigit(p[1]) && 10 * DigitValue(p[0]) + DigitValue(p[1]) == n
  {
  }

  lemma Pad2Write(a: char, b: char)
    requires IsDigit(a) && IsDigit(b)
    ensures Pad2(10 * DigitValue(a) + DigitValue(b)) == [a, b]
  {
    var n := 10 * DigitValue(a) + DigitValue(b);
    assert n / 10 == DigitValue(a) && n % 10 == DigitValue(b);
    DigitCharValue(a);
    DigitCharValue(b);
  }

  lemma Pad4Read(n: int)
    requires 0 <= n < 10000
    ensures var p := Pad4(n);
      |p| == 4 && IsDigit(p[0]) && IsDigit(p[1]) && IsDigit(p[2]) && IsDigit(p[3]) && 1000 * DigitValue(p[0]) + 100 * DigitValue(p[1]) + 10 * DigitValue(p[2]) + DigitValue(p[3]) == n
  {
    Pad2Read(n / 100);
    Pad2Read(n % 100);
  }

  lemma Pad4Write(a: char, b: char, c: char, e: char)
    requires IsDigit(a) && IsDigit(b) && IsDigit(c) && IsDigit(e)
    ensures Pad4(1000 * DigitValue(a) + 100 * DigitValue(b) + 10 * DigitValue(c) + DigitValue(e)) == [a, b, c, e]
  {
    var hi, lo := 10 * DigitValue(a) + DigitValue(b), 10 * DigitValue(c) + DigitValue(e);
    var n := 100 * hi + lo;
    assert n / 100 == hi && n % 100 == lo;
    Pad2Write(a, b);
    Pad2Write(c, e);
  }

  /** Reading back a formatted date gives the date. */
  lemma ParseFormat(d: Date)
    requires InIsoRange(d)
    ensures ParseIsoDate(FormatIsoDate(d)) == Some(d)
  {
    Pad4Read(d.year);
    Pad2Read(d.month);
    Pad2Read(d.day);
    var s := FormatIsoDate(d);
    assert s[..4] == Pad4(d.year) && s[5..7] == Pad2(d.month) && s[8..] == Pad2(d.day);
  }

  /** A text that parses is exactly the formatted form of what it parses to. */
  lemma FormatParse(s: string)
    requires ParseIsoDate(s).Some?
    ensures FormatIsoDate(ParseIsoDate(s).value) == s
  {
    Pad4Write(s[0], s[1], s[2], s[3]);
    Pad2Write(s[5], s[6]);
    Pad2Write(s[8], s[9]);
    assert s == [s[0], s[1], s[2], s[3]] + "-" + [s[5], s[6]] + "-" + [s[8], s[9]];
  }

  /** The first seven characters of a formatted date are its month key. */
  lemma FormatIsoDateMonth(d: Date)
    requires InIsoRange(d)
    ensures FormatIsoDate(d)[..7] == FormatIsoMonth(d.year, d.month)
  {
  }

  /** For four-digit years the unpadded year text equals the padded one. */
  lemma IntToStringFourDigits(y: int)
    requires 1000 <= y <= 9999
    ensures IntToString(y) == Pad4(y)
  {
    var q1 := y / 10;
    var q2 := q1 / 10;
    var q3 := q2 / 10;
    assert q2 == y / 100 && q1 % 10 == y % 100 / 10 && y % 10 == y % 100 % 10;
    assert 1 <= q3 <= 9 && q3 == y / 100 / 10;
    assert IntToString(q3) == [DigitChar(q3)];
    assert IntToString(q2) == IntToString(q3) + [DigitChar(q2 % 10)];
    assert IntToString(q1) == IntToString(q2) + [DigitChar(q1 % 10)];
  }
}
