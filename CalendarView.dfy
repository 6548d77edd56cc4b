/**
 * The month calendar: the shown month and its navigation, the grid of day
 * cells (leading blanks, then the days of the month), the date key of a cell,
 * the lessons of a cell, and how many of them a cell shows.
 */
module CalendarView {
  import opened Wrappers
  import opened Seqs
  import opened CivilDate

  /** A lesson as the calendar receives it. */
  datatype CalendarClass = CalendarClass(
    id: string,
    date: string,
    time: string,
    instrument: string,
    student: Option<string>,
    completed: Option<bool>,
    paid: Option<bool>)

  /** The shown month: the year and the 1-based month of `currentDate`, which is always the
      first of a month. */
  datatype CalendarMonth = CalendarMonth(year: int, month: int)

  predicate ValidMonth(cm: CalendarMonth) {
    1 <= cm.month <= 12
  }

  /** The month the view opens on, `new Date(2025, 9, 1)`. */
  const InitialMonth := CalendarMonth(2025, 10)

  /** Months counted from January of year 0. */
  function MonthIndex(cm: CalendarMonth): int {
    12 * cm.year + (cm.month - 1)
  }

  /** `new Date(year, monthIndex)` with an out-of-range month index: the index carries into
      the year, so the result is the month with that count. */
  function FromMonthIndex(i: int): (cm: CalendarMonth)
    ensures ValidMonth(cm) && MonthIndex(cm) == i
  {
    CalendarMonth(i / 12, i % 12 + 1)
  }

  /** A month is determined by its count. */
  lemma MonthIndexInjective(a: CalendarMonth, b: CalendarMonth)
    requires ValidMonth(a) && ValidMonth(b) && MonthIndex(a) == MonthIndex(b)
    ensures a == b
  {
    assert 12 * (a.year - b.year) == b.month - a.month;
  }

  /** `previousMonth`: `new Date(year, month - 1)`, one month back, into December of the year
      before from January. */
  function PreviousMonth(cm: CalendarMonth): (r: CalendarMonth)
    requires ValidMonth(cm)
    ensures ValidMonth(r) && MonthIndex(r) == MonthIndex(cm) - 1
    ensures cm.month > 1 ==> r == CalendarMonth(cm.year, cm.month - 1)
    ensures cm.month == 1 ==> r == CalendarMonth(cm.year - 1, 12)
  {
    var r := FromMonthIndex(MonthIndex(cm) - 1);
    if cm.month > 1 then
      MonthIndexInjective(r, CalendarMonth(cm.year, cm.month - 1)); r
    else
      MonthIndexInjective(r, CalendarMonth(cm.year - 1, 12)); r
  }

  /** `nextMonth`: `new Date(year, month + 1)`, one month on, into January of the next year
      from December. */
  function NextMonth(cm: CalendarMonth): (r: CalendarMonth)
    requires ValidMonth(cm)
    ensures ValidMonth(r) && MonthIndex(r) == MonthIndex(cm) + 1
    ensures cm.month < 12 ==> r == CalendarMonth(cm.year, cm.month + 1)
    ensures cm.month == 12 ==> r == CalendarMonth(cm.year + 1, 1)
  {
    var r := FromMonthIndex(MonthIndex(cm) + 1);
    if cm.month < 12 then
      MonthIndexInjective(r, CalendarMonth(cm.year, cm.month + 1)); r
    else
      MonthIndexInjective(r, CalendarMonth(cm.year + 1, 1)); r
  }

  /** Forward and back undo each other. */
  lemma NavigationInverse(cm: CalendarMonth)
    requires ValidMonth(cm)
    ensures PreviousMonth(NextMonth(cm)) == cm
    ensures NextMonth(PreviousMonth(cm)) == cm
  {
    MonthIndexInjective(PreviousMonth(NextMonth(cm)), cm);
    MonthIndexInjective(NextMonth(PreviousMonth(cm)), cm);
  }

  /** `getDaysInMonth` reads the date of day 0 of the next month, which is the day
      before its first: that day is day `DaysInMonth` of the shown month, and the first of
      the next month lies that many days after the first of this one. */
  lemma DaysInMonthIsDayZero(cm: CalendarMonth)
    requires ValidMonth(cm)
    ensures var last := Date(cm.year, cm.month, DaysInMonth(cm.year, cm.month));
            ValidDate(last) && NextDay(last) == Date(NextMonth(cm).year, NextMonth(cm).month, 1)
    ensures Ordinal(Date(NextMonth(cm).year, NextMonth(cm).month, 1)) - Ordinal(Date(cm.year, cm.month, 1))
            == DaysInMonth(cm.year, cm.month)
  {
    MonthLengthByOrdinal(cm.year, cm.month);
  }

  /** `getFirstDayOfMonth`: the weekday of the first, 0 = Sunday. */
  function FirstDayOfMonth(cm: CalendarMonth): (w: int)
    requires ValidMonth(cm)
    ensures 0 <= w < 7
  {
    Weekday(Date(cm.year, cm.month, 1))
  }

  // ---- The grid ----

  /** The `days` array: `firstDay` nulls, then 1 .. `daysInMonth`. */
  method BuildDays(cm: CalendarMonth) returns (days: seq<Option<int>>)
    requires ValidMonth(cm)
    ensures |days| == FirstDayOfMonth(cm) + DaysInMonth(cm.year, cm.month)
    ensures forall i :: 0 <= i < FirstDayOfMonth(cm) ==> days[i] == None
    ensures forall j :: FirstDayOfMonth(cm) <= j < |days| ==> days[j] == Some(j - FirstDayOfMonth(cm) + 1)
  {
    var daysInMonth := DaysInMonth(cm.year, cm.month);
    var firstDay := FirstDayOfMonth(cm);
    days := [];
    for i := 0 to firstDay
      invariant |days| == i
      invariant forall j :: 0 <= j < i ==> days[j] == None
    {
      days := days + [None];
    }
    for i := 1 to daysInMonth + 1
      invariant |days| == firstDay + i - 1
      invariant forall j :: 0 <= j < firstDay ==> days[j] == None
      invariant forall j :: firstDay <= j < |days| ==> days[j] == Some(j - firstDay + 1)
    {
      days := days + [Some(i)];
    }
  }

  /** In the seven-column grid headed Sun .. Sat, the cell holding day `d` sits in the column
      of that day's weekday. */
  lemma CellColumnIsWeekday(cm: CalendarMonth, d: int)
    requires ValidMonth(cm) && 1 <= d <= DaysInMonth(cm.year, cm.month)
    ensures (FirstDayOfMonth(cm) + (d - 1)) % 7 == Weekday(Date(cm.year, cm.month, d))
  {
    WeekdayWithinMonth(cm.year, cm.month, 1, d);
  }

  // ---- Cells ----

  /** The key of day `day` of the shown month: the year as `String(year)`, then month and day
      padded to two digits. */
  function DateKey(cm: CalendarMonth, day: int): string
    requires ValidMonth(cm) && 1 <= day <= DaysInMonth(cm.year, cm.month)
  {
    IntToString(cm.year) + "-" + Pad2(cm.month) + "-" + Pad2(day)
  }

  /** For four-digit years the key is the stored `YYYY-MM-DD` form of the date, and it reads
      back as that date. */
  lemma DateKeyIso(cm: CalendarMonth, day: int)
    requires ValidMonth(cm) && 1 <= day <= DaysInMonth(cm.year, cm.month)
    requires 1000 <= cm.year <= 9999
    ensures DateKey(cm, day) == FormatIsoDate(Date(cm.year, cm.month, day))
    ensures ParseIsoDate(DateKey(cm, day)) == Some(Date(cm.year, cm.month, day))
  {
    IntToStringFourDigits(cm.year);
    ParseFormat(Date(cm.year, cm.month, day));
  }

  /** `getClassesForDate(day)`: the lessons stored under exactly that key, in input order. */
  function ClassesForDate(classes: seq<CalendarClass>, cm: CalendarMonth, day: int): (r: seq<CalendarClass>)
    requires ValidMonth(cm) && 1 <= day <= DaysInMonth(cm.year, cm.month)
    ensures forall c :: c in r <==> c in classes && c.date == DateKey(cm, day)
    ensures |r| <= |classes|
    ensures IsSubsequence(r, classes)
    ensures forall c :: multiset(r)[c] == if c.date == DateKey(cm, day) then multiset(classes)[c] else 0
  {
    var p := (c: CalendarClass) => c.date == DateKey(cm, day);
    FilterExact(classes, p);
    Filter(classes, p)
  }

  /** Two days of the shown month have the same key only when they are the same day: the keys
      share the year and month part and differ in the padded day. */
  lemma DateKeyInjective(cm: CalendarMonth, d1: int, d2: int)
    requires ValidMonth(cm)
    requires 1 <= d1 <= DaysInMonth(cm.year, cm.month) && 1 <= d2 <= DaysInMonth(cm.year, cm.month)
    ensures DateKey(cm, d1) == DateKey(cm, d2) <==> d1 == d2
  {
    if DateKey(cm, d1) == DateKey(cm, d2) {
      var prefix := IntToString(cm.year) + "-" + Pad2(cm.month) + "-";
      assert DateKey(cm, d1) == prefix + Pad2(d1);
      assert DateKey(cm, d2) == prefix + Pad2(d2);
      assert Pad2(d1) == DateKey(cm, d1)[|prefix|..];
      assert Pad2(d2) == DateKey(cm, d2)[|prefix|..];
      Pad2Read(d1);
      Pad2Read(d2);
    }
  }

  /** Different days get disjoint lessons: no lesson shows on two cells of the month. */
  lemma ClassesForDistinctDays(classes: seq<CalendarClass>, cm: CalendarMonth, d1: int, d2: int)
    requires ValidMonth(cm)
    requires 1 <= d1 <= DaysInMonth(cm.year, cm.month) && 1 <= d2 <= DaysInMonth(cm.year, cm.month)
    requires d1 != d2
    ensures forall c :: c in ClassesForDate(classes, cm, d1) ==> c !in ClassesForDate(classes, cm, d2)
  {
    DateKeyInjective(cm, d1, d2);
  }

  /** `classesForDay.slice(0, 2)`: the lessons a cell lists. */
  function VisibleClasses(cs: seq<CalendarClass>): (r: seq<CalendarClass>)
    ensures |r| <= 2
    ensures |r| == if |cs| < 2 then |cs| else 2
    ensures r == cs[..|r|]
  {
    if |cs| <= 2 then cs else cs[..2]
  }

  /** The `+n` label, present only when more than two lessons fall on the day. */
  function OverflowLabel(cs: seq<CalendarClass>): (r: Option<int>)
    ensures r.Some? <==> |cs| > 2
    ensures r.Some? ==> r.value > 0
  {
    if |cs| > 2 then Some(|cs| - 2) else None
  }

  /** The listed lessons and the `+n` label account for every lesson of the day. */
  lemma CellAccountsForAll(cs: seq<CalendarClass>)
    ensures |VisibleClasses(cs)| + (if OverflowLabel(cs).Some? then OverflowLabel(cs).value else 0) == |cs|
  {
  }
}
