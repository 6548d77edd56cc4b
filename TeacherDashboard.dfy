/**
 * The teacher dashboard: lessons mapped in from the store with a fee default,
 * single and monthly bulk scheduling, the paid toggle, and the instrument
 * filter, instrument list and revenue derived from the lesson list.
 */
module TeacherDashboard {
  import opened Wrappers
  import opened Seqs
  import opened CivilDate
  import opened Lessons

  // ---- Lessons as the dashboard holds them ----

  /** A lesson as the dashboard lists it. */
  datatype Class = Class(
    id: string,
    student: string,
    studentEmail: Option<string>,
    date: string,
    time: string,
    instrument: string,
    feePerClass: int,
    paid: bool,
    notes: string,
    monthYear: Option<string>,
    monthlyPackage: Option<nat>)

  /** `fee || 500`: a missing or zero fee reads as 500, any other fee as itself. */
  function FeeOrDefault(fee: Option<int>): (r: int)
    ensures r != 0
    ensures fee.Some? && fee.value != 0 ==> r == fee.value
    ensures fee.None? || fee == Some(0) ==> r == 500
  {
    if fee.Some? && fee.value != 0 then fee.value else 500
  }

  /** The mapping applied to every stored lesson the subscription delivers. */
  function ToClass(c: MusicClass): Class {
    Class(c.id, c.studentName, c.studentEmail, c.date, c.time, c.instrument,
          FeeOrDefault(Some(c.feePerClass)), c.paid, "", c.monthYear, c.monthlyPackage)
  }

  function ToClasses(store: seq<MusicClass>): (r: seq<Class>)
    ensures |r| == |store| && forall i :: 0 <= i < |store| ==> r[i] == ToClass(store[i])
  {
    seq(|store|, i requires 0 <= i < |store| => ToClass(store[i]))
  }

  // ---- Scheduling one lesson ----

  datatype ClassForm = ClassForm(
    student: string, studentEmail: string, date: string, time: string,
    instrument: string, feePerClass: int, notes: string)

  /** The creation request for a single lesson, or nothing when no teacher is signed in or
      the student, date, time or instrument is empty. */
  function ScheduleClass(user: Option<string>, form: ClassForm): (r: Option<ClassData>)
    ensures r.None? <==>
      user.None? || form.student == "" || form.date == "" || form.time == "" || form.instrument == ""
    ensures r.Some? ==> MonthYearAgrees(r.value) && r.value.monthYear == Some(Month(form.date))
    ensures r.Some? ==>
      && r.value.teacherId == user.value && r.value.studentName == form.student
      && r.value.date == form.date && r.value.time == form.time && r.value.instrument == form.instrument
      && r.value.feePerClass == form.feePerClass && !r.value.paid && !r.value.completed
    ensures r.Some? ==> r.value.studentEmail == if form.studentEmail == "" then None else Some(form.studentEmail)
  {
    if user.None? || form.student == "" || form.date == "" || form.time == "" || form.instrument == "" then None
    else
      Some(ClassData(
        teacherId := user.value,
        studentId := "temp-student-id",
        studentName := form.student,
        studentEmail := if form.studentEmail == "" then None else Some(form.studentEmail),
        date := form.date,
        time := form.time,
        instrument := form.instrument,
        feePerClass := form.feePerClass,
        paid := false,
        completed := false,
        monthlyPackage := None,
        monthYear := Some(Month(form.date))))
  }

  // ---- Monthly bulk scheduling ----

  /** The bulk form: weekdays as `Date.getDay` numbers them (0 = Sunday). */
  datatype BulkScheduleForm = BulkScheduleForm(
    studentId: string, startDate: string, time: string, monthlyPackage: nat, dayOfWeek: seq<int>)

  datatype BulkError = NotLoggedIn | NoStudentSelected | NoStartDate | NoTime | NoWeekday | StudentNotFound

  /** `students.find(s => s.id === id)`: the first roster entry with that id. */
  function FindStudent(roster: seq<Student>, id: string): (r: Option<Student>)
    ensures r.None? <==> forall s :: s in roster ==> s.id != id
    ensures r.Some? ==> r.value in roster && r.value.id == id
    ensures r.Some? ==> exists i :: 0 <= i < |roster| && roster[i] == r.value
                                    && forall j :: 0 <= j < i ==> roster[j].id != id
  {
    if roster == [] then None
    else if roster[0].id == id then Some(roster[0])
    else
      var r := FindStudent(roster[1..], id);
      assert r.Some? ==> exists i :: 1 <= i < |roster| && roster[i] == r.value
                                     && forall j :: 0 <= j < i ==> roster[j].id != id by {
        if r.Some? {
          var i :| 0 <= i < |roster[1..]| && roster[1..][i] == r.value
                   && forall j :: 0 <= j < i ==> roster[1..][j].id != id;
          assert forall j :: 0 <= j < i + 1 ==> roster[j].id != id by {
            forall j | 0 <= j < i + 1 ensures roster[j].id != id {
              if j > 0 { assert roster[j] == roster[1..][j - 1]; }
            }
          }
        }
      }
      r
  }

  /** The days `from` .. `last` whose weekday is in `weekdays`, in increasing order, when day
      `from` falls on weekday `w` and each day falls on the weekday after the previous one. */
  function WeekdayWalk(from: int, last: int, w: int, weekdays: seq<int>): seq<int>
    decreases last + 1 - from
  {
    if from > last then []
    else (if w in weekdays then [from] else []) + WeekdayWalk(from + 1, last, (w + 1) % 7, weekdays)
  }

  /** The walk takes exactly the days whose weekday, counted on from `w`, is selected, each
      once and in increasing order. */
  lemma {:induction false} WeekdayWalkExact(from: int, last: int, w: int, weekdays: seq<int>)
    requires 0 <= w < 7
    decreases last + 1 - from
    ensures forall d :: d in WeekdayWalk(from, last, w, weekdays) <==>
                        from <= d <= last && (w + (d - from)) % 7 in weekdays
    ensures forall i, j :: 0 <= i < j < |WeekdayWalk(from, last, w, weekdays)| ==>
                           WeekdayWalk(from, last, w, weekdays)[i] < WeekdayWalk(from, last, w, weekdays)[j]
  {
    WeekdayWalkMembers(from, last, w, weekdays);
    WeekdayWalkIncreasing(from, last, w, weekdays);
  }

  lemma {:induction false} WeekdayWalkMembers(from: int, last: int, w: int, weekdays: seq<int>)
    requires 0 <= w < 7
    decreases last + 1 - from
    ensures forall d :: d in WeekdayWalk(from, last, w, weekdays) <==>
                        from <= d <= last && (w + (d - from)) % 7 in weekdays
  {
    if from <= last {
      WeekdayWalkMembers(from + 1, last, (w + 1) % 7, weekdays);
      var rest := WeekdayWalk(from + 1, last, (w + 1) % 7, weekdays);
      assert WeekdayWalk(from, last, w, weekdays) == (if w in weekdays then [from] else []) + rest;
      forall d ensures d in WeekdayWalk(from, last, w, weekdays) <==>
                       from <= d <= last && (w + (d - from)) % 7 in weekdays {
        ModSevenShift(w + 1, d - (from + 1));
        assert d in rest <==> from + 1 <= d <= last && (w + (d - from)) % 7 in weekdays;
      }
    }
  }

  lemma {:induction false} WeekdayWalkIncreasing(from: int, last: int, w: int, weekdays: seq<int>)
    requires 0 <= w < 7
    decreases last + 1 - from
    ensures forall d :: d in WeekdayWalk(from, last, w, weekdays) ==> from <= d
    ensures forall i, j :: 0 <= i < j < |WeekdayWalk(from, last, w, weekdays)| ==>
                           WeekdayWalk(from, last, w, weekdays)[i] < WeekdayWalk(from, last, w, weekdays)[j]
  {
    if from <= last {
      WeekdayWalkIncreasing(from + 1, last, (w + 1) % 7, weekdays);
      var rest := WeekdayWalk(from + 1, last, (w + 1) % 7, weekdays);
      assert forall i :: 0 <= i < |rest| ==> rest[i] in rest;
    }
  }

  /** The days from `from` to the end of month `m` of year `y` whose weekday is one of
      `weekdays`. */
  function MatchingDays(y: int, m: int, from: int, weekdays: seq<int>): seq<int>
    requires 1 <= m <= 12 && 1 <= from
  {
    if from > DaysInMonth(y, m) then []
    else WeekdayWalk(from, DaysInMonth(y, m), Weekday(Date(y, m, from)), weekdays)
  }

  /** The matching days are exactly the days from `from` to the end of the month with a
      selected weekday, each once and in increasing order. */
  lemma MatchingDaysExact(y: int, m: int, from: int, weekdays: seq<int>)
    requires 1 <= m <= 12 && 1 <= from
    ensures forall d :: d in MatchingDays(y, m, from, weekdays) <==>
                        from <= d <= DaysInMonth(y, m) && Weekday(Date(y, m, d)) in weekdays
    ensures forall i, j :: 0 <= i < j < |MatchingDays(y, m, from, weekdays)| ==>
                           MatchingDays(y, m, from, weekdays)[i] < MatchingDays(y, m, from, weekdays)[j]
  {
    var last := DaysInMonth(y, m);
    if from <= last {
      var w := Weekday(Date(y, m, from));
      WeekdayWalkExact(from, last, w, weekdays);
      forall d | from <= d <= last ensures Weekday(Date(y, m, d)) == (w + (d - from)) % 7 {
        WeekdayWithinMonth(y, m, from, d);
      }
    }
  }

  function Min(a: int, b: int): int {
    if a <= b then a else b
  }

  /** The request the bulk form produces for day `d`: the student's data copied, the form's
      time and package, unpaid, not completed, tagged with the start date's month. */
  function BulkRecord(teacher: string, st: Student, form: BulkScheduleForm, d: Date): ClassData
    requires InIsoRange(d)
  {
    ClassData(
      teacherId := teacher,
      studentId := st.id,
      studentName := st.name,
      studentEmail := Some(st.email),
      date := FormatIsoDate(d),
      time := form.time,
      instrument := st.instrument,
      feePerClass := st.feePerClass,
      paid := false,
      completed := false,
      monthlyPackage := Some(form.monthlyPackage),
      monthYear := Some(Month(form.startDate)))
  }

  /** Every day in `days` is a day of month `m` of a four-digit year `y`. */
  predicate DaysOfMonth(y: int, m: int, days: seq<int>) {
    0 <= y <= 9999 && 1 <= m <= 12 && forall i :: 0 <= i < |days| ==> 1 <= days[i] <= DaysInMonth(y, m)
  }

  /** The requests for `days` of month `m` of year `y`, in the order of `days`. */
  function BulkRecords(teacher: string, st: Student, form: BulkScheduleForm, y: int, m: int, days: seq<int>)
    : (r: seq<ClassData>)
    requires DaysOfMonth(y, m, days)
    ensures |r| == |days|
  {
    if days == [] then []
    else BulkRecords(teacher, st, form, y, m, days[..|days| - 1])
         + [BulkRecord(teacher, st, form, Date(y, m, days[|days| - 1]))]
  }

  lemma {:induction false} BulkRecordsAt(teacher: string, st: Student, form: BulkScheduleForm, y: int, m: int,
                                         days: seq<int>)
    requires DaysOfMonth(y, m, days)
    ensures forall i :: 0 <= i < |days| ==>
      BulkRecords(teacher, st, form, y, m, days)[i] == BulkRecord(teacher, st, form, Date(y, m, days[i]))
  {
    if days != [] {
      var init := days[..|days| - 1];
      assert DaysOfMonth(y, m, init) by {
        forall i | 0 <= i < |init| ensures 1 <= init[i] <= DaysInMonth(y, m) {
          assert init[i] == days[i];
        }
      }
      BulkRecordsAt(teacher, st, form, y, m, init);
    }
  }

  /** The days of the month of `start` the bulk scheduler books: the candidates from `start`
      on, cut to the package size. */
  function BulkDays(start: Date, form: BulkScheduleForm): seq<int>
    requires InIsoRange(start)
  {
    var all := MatchingDays(start.year, start.month, start.day, form.dayOfWeek);
    all[..Min(form.monthlyPackage, |all|)]
  }

  lemma BulkDaysOfMonth(start: Date, form: BulkScheduleForm)
    requires InIsoRange(start)
    ensures DaysOfMonth(start.year, start.month, BulkDays(start, form))
  {
    var all := MatchingDays(start.year, start.month, start.day, form.dayOfWeek);
    MatchingDaysExact(start.year, start.month, start.day, form.dayOfWeek);
    assert forall i :: 0 <= i < |BulkDays(start, form)| ==> BulkDays(start, form)[i] in all;
  }

  /** Monthly bulk scheduling. The checks run in the source's order and each failure creates
      nothing. Otherwise the days from the start date to the end of its month are walked one
      by one and each day with a selected weekday yields one request, until the package is
      full. A start date that is not a calendar date walks no day at all. */
  method BulkSchedule(user: Option<string>, roster: seq<Student>, form: BulkScheduleForm)
    returns (r: Result<seq<ClassData>, BulkError>)
    ensures user.None? ==> r == Failure(NotLoggedIn)
    ensures user.Some? && form.studentId == "" ==> r == Failure(NoStudentSelected)
    ensures user.Some? && form.studentId != "" && form.startDate == "" ==> r == Failure(NoStartDate)
    ensures (user.Some? && form.studentId != "" && form.startDate != "" && form.time == "")
            ==> r == Failure(NoTime)
    ensures (user.Some? && form.studentId != "" && form.startDate != "" && form.time != ""
             && form.dayOfWeek == []) ==> r == Failure(NoWeekday)
    ensures r.Failure? <==>
      (|| user.None? || form.studentId == "" || form.startDate == "" || form.time == ""
       || form.dayOfWeek == [] || FindStudent(roster, form.studentId).None?)
    ensures r.Success? && ParseIsoDate(form.startDate).None? ==> r.value == []
    ensures r.Success? && ParseIsoDate(form.startDate).Some? ==>
      var start := ParseIsoDate(form.startDate).value;
      DaysOfMonth(start.year, start.month, BulkDays(start, form)) &&
      r.value == BulkRecords(user.value, FindStudent(roster, form.studentId).value, form,
                             start.year, start.month, BulkDays(start, form))
  {
    if user.None? { return Failure(NotLoggedIn); }
    if form.studentId == "" { return Failure(NoStudentSelected); }
    if form.startDate == "" { return Failure(NoStartDate); }
    if form.time == "" { return Failure(NoTime); }
    if |form.dayOfWeek| == 0 { return Failure(NoWeekday); }
    var found := FindStudent(roster, form.studentId);
    if found.None? { return Failure(StudentNotFound); }
    var student := found.value;
    var parsed := ParseIsoDate(form.startDate);
    if parsed.None? {
      // An Invalid Date compares false with everything, so the loop would not run.
      return Success([]);
    }
    var classesToCreate := ScheduleMonth(user.value, student, form, parsed.value);
    return Success(classesToCreate);
  }

  /** The loop of the bulk scheduler: from the start date to the end of its month, one day at
      a time, one request per day with a selected weekday, until the package is full. */
  method ScheduleMonth(teacher: string, student: Student, form: BulkScheduleForm, startDate: Date)
    returns (classesToCreate: seq<ClassData>)
    requires InIsoRange(startDate)
    ensures DaysOfMonth(startDate.year, startDate.month, BulkDays(startDate, form))
    ensures classesToCreate ==
      BulkRecords(teacher, student, form, startDate.year, startDate.month, BulkDays(startDate, form))
  {
    var y, m := startDate.year, startDate.month;
    var last := DaysInMonth(y, m);
    var endOfMonth := EndOfMonth(startDate);
    var currentDate := startDate;
    var classesScheduled := 0;
    classesToCreate := [];
    ghost var day := startDate.day;
    ghost var w := Weekday(startDate);
    ghost var booked: seq<int> := [];
    ghost var target := Walked(form, y, m, day, w, booked);
    while DateLe(currentDate, endOfMonth) && classesScheduled < form.monthlyPackage
      invariant startDate.day <= day <= last + 1
      invariant day <= last ==> currentDate == Date(y, m, day)
      invariant day == last + 1 ==> !DateLe(currentDate, endOfMonth)
      invariant 0 <= w < 7 && (day <= last ==> w == Weekday(currentDate))
      invariant DaysOfMonth(y, m, booked) && |booked| == classesScheduled
      invariant classesToCreate == BulkRecords(teacher, student, form, y, m, booked)
      invariant Walked(form, y, m, day, w, booked) == target
      decreases last + 1 - day
    {
      assert day <= last && currentDate == Date(y, m, day);
      ghost var next := BookStep(teacher, student, form, currentDate, w, booked, classesToCreate, classesScheduled);
      classesToCreate, classesScheduled := VisitDay(teacher, student, form, currentDate, classesToCreate, classesScheduled);
      booked := next;
      DayAdvance(startDate, day);
      currentDate := NextDay(currentDate);
      day := day + 1;
      w := (w + 1) % 7;
    }
    assert booked == target;
    assert startDate == Date(y, m, startDate.day);
    WalkedIsBooked(form, y, m, startDate.day, [], Weekday(startDate));
    assert MatchingDays(y, m, startDate.day, form.dayOfWeek)
        == [] + WeekdayWalk(startDate.day, last, Weekday(startDate), form.dayOfWeek);
  }

  /** The body of the walk for one date: a request for it when its weekday is selected. */
  method VisitDay(teacher: string, student: Student, form: BulkScheduleForm, currentDate: Date,
                  classesToCreate: seq<ClassData>, classesScheduled: int)
    returns (classesToCreate': seq<ClassData>, classesScheduled': int)
    requires InIsoRange(currentDate)
    ensures Weekday(currentDate) in form.dayOfWeek ==>
      classesToCreate' == classesToCreate + [BulkRecord(teacher, student, form, currentDate)]
      && classesScheduled' == classesScheduled + 1
    ensures Weekday(currentDate) !in form.dayOfWeek ==>
      classesToCreate' == classesToCreate && classesScheduled' == classesScheduled
  {
    classesToCreate', classesScheduled' := classesToCreate, classesScheduled;
    if Weekday(currentDate) in form.dayOfWeek {
      var dateStr := FormatIsoDate(currentDate);
      var classData := ClassData(
        teacherId := teacher,
        studentId := student.id,
        studentName := student.name,
        studentEmail := Some(student.email),
        date := dateStr,
        time := form.time,
        instrument := student.instrument,
        feePerClass := student.feePerClass,
        paid := false,
        completed := false,
        monthlyPackage := Some(form.monthlyPackage),
        monthYear := Some(Month(form.startDate)));
      classesToCreate' := classesToCreate + [classData];
      classesScheduled' := classesScheduled + 1;
    }
  }

  /** The days the walk has booked once it is past the month's end or the package is full,
      when it goes on from day `day`, whose weekday is `w`, with `days` booked so far. */
  ghost function Walked(form: BulkScheduleForm, y: int, m: int, day: int, w: int, days: seq<int>): seq<int>
    requires 1 <= m <= 12 && 1 <= day
    decreases DaysInMonth(y, m) + 1 - day
  {
    if day > DaysInMonth(y, m) || |days| >= form.monthlyPackage then days
    else if w in form.dayOfWeek then Walked(form, y, m, day + 1, (w + 1) % 7, days + [day])
    else Walked(form, y, m, day + 1, (w + 1) % 7, days)
  }

  /** The days booked when the days `days` are taken and the walk goes on from `day`, whose
      weekday is `w`: all of them, cut to the package size. */
  ghost function Booked(form: BulkScheduleForm, y: int, m: int, day: int, days: seq<int>, w: int): seq<int>
    requires 1 <= m <= 12
  {
    var all := days + WeekdayWalk(day, DaysInMonth(y, m), w, form.dayOfWeek);
    all[..Min(form.monthlyPackage, |all|)]
  }

  /** The ghost side of one day of the walk: the days booked after it, and the requests built
      so far are the requests for them. */
  lemma BookStep(teacher: string, student: Student, form: BulkScheduleForm, d: Date, w: int,
                 booked: seq<int>, acc: seq<ClassData>, count: int)
    returns (next: seq<int>)
    requires InIsoRange(d) && w == Weekday(d)
    requires DaysOfMonth(d.year, d.month, booked) && |booked| == count < form.monthlyPackage
    requires acc == BulkRecords(teacher, student, form, d.year, d.month, booked)
    ensures next == if w in form.dayOfWeek then booked + [d.day] else booked
    ensures DaysOfMonth(d.year, d.month, next)
    ensures w in form.dayOfWeek ==>
      BulkRecords(teacher, student, form, d.year, d.month, next) == acc + [BulkRecord(teacher, student, form, d)]
      && |next| == count + 1
    ensures w !in form.dayOfWeek ==>
      BulkRecords(teacher, student, form, d.year, d.month, next) == acc && |next| == count
    ensures Walked(form, d.year, d.month, d.day, w, booked)
            == Walked(form, d.year, d.month, d.day + 1, (w + 1) % 7, next)
  {
    next := if w in form.dayOfWeek then booked + [d.day] else booked;
    WalkedStep(form, d.year, d.month, d.day, w, booked, next);
    if w in form.dayOfWeek {
      BulkRecordsSnoc(teacher, student, form, d.year, d.month, booked, d.day);
    }
  }

  /** One day of the walk: a day with a selected weekday is booked, any other is skipped. */
  lemma WalkedStep(form: BulkScheduleForm, y: int, m: int, day: int, w: int, days: seq<int>, next: seq<int>)
    requires 1 <= m <= 12 && 1 <= day <= DaysInMonth(y, m) && |days| < form.monthlyPackage
    requires next == if w in form.dayOfWeek then days + [day] else days
    ensures Walked(form, y, m, day, w, days) == Walked(form, y, m, day + 1, (w + 1) % 7, next)
  {
  }

  /** Walking on from `day` with `days` booked books the candidates from `day` on after
      `days`, cut to the package size. */
  lemma {:induction false} WalkedIsBooked(form: BulkScheduleForm, y: int, m: int, day: int, days: seq<int>, w: int)
    requires 1 <= m <= 12 && 1 <= day <= DaysInMonth(y, m) + 1
    requires |days| <= form.monthlyPackage && 0 <= w < 7
    decreases DaysInMonth(y, m) + 1 - day
    ensures Walked(form, y, m, day, w, days) == Booked(form, y, m, day, days, w)
  {
    var last := DaysInMonth(y, m);
    var all := days + WeekdayWalk(day, last, w, form.dayOfWeek);
    if day > last || |days| >= form.monthlyPackage {
      assert all[..Min(form.monthlyPackage, |all|)] == days;
    } else {
      var next := if w in form.dayOfWeek then days + [day] else days;
      WalkStep(all, days, next, day, last, w, form.dayOfWeek);
      WalkedIsBooked(form, y, m, day + 1, next, (w + 1) % 7);
    }
  }

  /** One step of the walk through the month of `start`: the next date, its weekday, and the
      date past the end of the month. */
  lemma DayAdvance(start: Date, day: int)
    requires InIsoRange(start) && start.day <= day <= DaysInMonth(start.year, start.month)
    ensures var d := Date(start.year, start.month, day);
      && InIsoRange(d)
      && Weekday(NextDay(d)) == (Weekday(d) + 1) % 7
      && (day < DaysInMonth(start.year, start.month) ==> NextDay(d) == Date(start.year, start.month, day + 1))
      && (day == DaysInMonth(start.year, start.month) ==> !DateLe(NextDay(d), EndOfMonth(start)))
  {
    NextDayWeekday(Date(start.year, start.month, day));
  }

  lemma BulkRecordsSnoc(teacher: string, st: Student, form: BulkScheduleForm, y: int, m: int,
                        days: seq<int>, day: int)
    requires DaysOfMonth(y, m, days) && 1 <= day <= DaysInMonth(y, m)
    ensures DaysOfMonth(y, m, days + [day])
    ensures BulkRecords(teacher, st, form, y, m, days + [day]) ==
            BulkRecords(teacher, st, form, y, m, days) + [BulkRecord(teacher, st, form, Date(y, m, day))]
  {
    assert (days + [day])[..|days|] == days;
  }

  /** The days still to visit, from `day` on, complete the days taken so far to `all`. */
  ghost predicate WalkSplit(all: seq<int>, days: seq<int>, day: int, last: int, w: int, weekdays: seq<int>) {
    all == days + WeekdayWalk(day, last, w, weekdays)
  }

  lemma WalkStep(all: seq<int>, days: seq<int>, next: seq<int>, day: int, last: int, w: int, weekdays: seq<int>)
    requires day <= last && WalkSplit(all, days, day, last, w, weekdays)
    requires next == if w in weekdays then days + [day] else days
    ensures WalkSplit(all, next, day + 1, last, (w + 1) % 7, weekdays)
  {
    var rest := WeekdayWalk(day + 1, last, (w + 1) % 7, weekdays);
    if w in weekdays {
      assert days + ([day] + rest) == (days + [day]) + rest;
    } else {
      assert days + ([] + rest) == days + rest;
    }
  }

  /** What the bulk requests are: one per day from the start date to the end of its month with
      a selected weekday, in date order, as many as the package allows; each carries the
      student's data, is unpaid and not completed, and carries the start date's month both as
      its tag and in its date. */
  lemma BulkRecordsSpec(teacher: string, st: Student, form: BulkScheduleForm)
    requires ParseIsoDate(form.startDate).Some?
    ensures var start := ParseIsoDate(form.startDate).value;
      var rs := (BulkDaysOfMonth(start, form); BulkRecords(teacher, st, form, start.year, start.month, BulkDays(start, form)));
      var candidates := MatchingDays(start.year, start.month, start.day, form.dayOfWeek);
      && |rs| == Min(form.monthlyPackage, |candidates|)
      && (forall i :: 0 <= i < |rs| ==>
            && ParseIsoDate(rs[i].date) == Some(Date(start.year, start.month, candidates[i]))
            && Month(rs[i].date) == Month(form.startDate) && MonthYearAgrees(rs[i])
            && rs[i].studentId == st.id && rs[i].studentName == st.name
            && rs[i].studentEmail == Some(st.email) && rs[i].instrument == st.instrument
            && rs[i].teacherId == teacher && rs[i].time == form.time
            && rs[i].feePerClass == st.feePerClass && rs[i].monthYear == Some(Month(form.startDate)) && !rs[i].paid && !rs[i].completed
            && rs[i].monthlyPackage == Some(form.monthlyPackage))
  {
    var start := ParseIsoDate(form.startDate).value;
    BulkDaysOfMonth(start, form);
    var days := BulkDays(start, form);
    var rs := BulkRecords(teacher, st, form, start.year, start.month, days);
    BulkRecordsAt(teacher, st, form, start.year, start.month, days);
    FormatParse(form.startDate);
    MonthOfIsoDate(start);
    forall i | 0 <= i < |rs|
      ensures ParseIsoDate(rs[i].date) == Some(Date(start.year, start.month, days[i]))
      ensures Month(rs[i].date) == Month(form.startDate)
    {
      var d := Date(start.year, start.month, days[i]);
      ParseFormat(d);
      MonthOfIsoDate(d);
    }
  }

  /** Every candidate day lies between the start date and the end of its month and falls on a
      selected weekday, and candidates come in date order. */
  lemma BulkCandidatesInMonth(form: BulkScheduleForm)
    requires ParseIsoDate(form.startDate).Some?
    ensures var start := ParseIsoDate(form.startDate).value;
      var candidates := MatchingDays(start.year, start.month, start.day, form.dayOfWeek);
      && (forall i :: 0 <= i < |candidates| ==>
            var d := Date(start.year, start.month, candidates[i]);
            ValidDate(d) && DateLe(start, d) && DateLe(d, EndOfMonth(start)) && Weekday(d) in form.dayOfWeek)
      && (forall i, j :: 0 <= i < j < |candidates| ==> candidates[i] < candidates[j])
  {
    var start := ParseIsoDate(form.startDate).value;
    var candidates := MatchingDays(start.year, start.month, start.day, form.dayOfWeek);
    MatchingDaysExact(start.year, start.month, start.day, form.dayOfWeek);
    assert forall i :: 0 <= i < |candidates| ==> candidates[i] in candidates;
  }

  lemma WeekdayOctober2025(d: int)
    requires 1 <= d <= 31
    ensures DaysInMonth(2025, 10) == 31
    ensures Weekday(Date(2025, 10, d)) == (d + 2) % 7
  {
    assert DaysBeforeMonth(2025, 10) == 273 by {
      assert DaysBeforeMonth(2025, 2) == 31;
      assert DaysBeforeMonth(2025, 4) == 90;
      assert DaysBeforeMonth(2025, 6) == 151;
      assert DaysBeforeMonth(2025, 8) == 212;
    }
    assert DaysBeforeYear(2025) == 739617;
  }

  /** The worked example: from Wednesday 2025-10-01, Mondays and Wednesdays match nine days of
      October, so a package of 8 gets the first eight of them and a package of 20 gets nine. */
  lemma October2025Example(y: int, m: int, weekdays: seq<int>)
    requires y == 2025 && m == 10 && weekdays == [1, 3]
    ensures MatchingDays(y, m, 1, weekdays) == [1, 6, 8, 13, 15, 20, 22, 27, 29]
    ensures MatchingDays(y, m, 1, weekdays)[..Min(8, 9)] == [1, 6, 8, 13, 15, 20, 22, 27]
    ensures Min(20, |MatchingDays(y, m, 1, weekdays)|) == 9
  {
    WeekdayOctober2025(1);
    var last := DaysInMonth(y, m);
    var w := Weekday(Date(y, m, 1));
    assert last == 31 && w == 3;
    October2025Days(last, weekdays);
    var ds := MatchingDays(y, m, 1, weekdays);
    assert ds == WeekdayWalk(1, last, w, weekdays);
    assert ds == [1, 6, 8, 13, 15, 20, 22, 27, 29];
  }

  /** A week of the walk from a Wednesday, Mondays and Wednesdays selected. */
  lemma MondayWednesdayWeek(from: int, last: int, weekdays: seq<int>)
    requires from + 7 <= last && weekdays == [1, 3]
    ensures WeekdayWalk(from, last, 3, weekdays) == [from, from + 5] + WeekdayWalk(from + 7, last, 3, weekdays)
  {
    var next := WeekdayWalk(from + 7, last, 3, weekdays);
    assert WeekdayWalk(from + 6, last, 2, weekdays) == next;
    assert WeekdayWalk(from + 5, last, 1, weekdays) == [from + 5] + next;
    assert WeekdayWalk(from + 4, last, 0, weekdays) == [from + 5] + next;
    assert WeekdayWalk(from + 3, last, 6, weekdays) == [from + 5] + next;
    assert WeekdayWalk(from + 2, last, 5, weekdays) == [from + 5] + next;
    assert WeekdayWalk(from + 1, last, 4, weekdays) == [from + 5] + next;
  }

  lemma October2025Walk(last: int, weekdays: seq<int>)
    requires last == 31 && weekdays == [1, 3]
    ensures WeekdayWalk(15, last, 3, weekdays) == [15, 20, 22, 27, 29]
  {
    assert WeekdayWalk(30, last, 4, weekdays) == [];
    assert WeekdayWalk(29, last, 3, weekdays) == [29];
    MondayWednesdayWeek(22, last, weekdays);
    assert WeekdayWalk(22, last, 3, weekdays) == [22, 27, 29];
    MondayWednesdayWeek(15, last, weekdays);
  }

  lemma October2025Days(last: int, weekdays: seq<int>)
    requires last == 31 && weekdays == [1, 3]
    ensures WeekdayWalk(1, last, 3, weekdays) == [1, 6, 8, 13, 15, 20, 22, 27, 29]
  {
    October2025Walk(last, weekdays);
    MondayWednesdayWeek(8, last, weekdays);
    assert WeekdayWalk(8, last, 3, weekdays) == [8, 13, 15, 20, 22, 27, 29];
    MondayWednesdayWeek(1, last, weekdays);
  }

  // ---- Paid toggle ----

  /** `togglePaidStatus`: an update flipping the flag of the first listed lesson with that id,
      or nothing when no lesson has it. */
  function TogglePaidRequest(classes: seq<Class>, id: string): (r: Option<PaidUpdate>)
    ensures r.None? <==> forall c :: c in classes ==> c.id != id
    ensures r.Some? ==> r.value.id == id
    ensures r.Some? ==>
      exists i :: 0 <= i < |classes| && classes[i].id == id && r.value.paid == !classes[i].paid
                  && forall j :: 0 <= j < i ==> classes[j].id != id
  {
    if classes == [] then None
    else if classes[0].id == id then Some(PaidUpdate(id, !classes[0].paid))
    else
      var r := TogglePaidRequest(classes[1..], id);
      assert r.Some? ==>
        exists i :: 1 <= i < |classes| && classes[i].id == id && r.value.paid == !classes[i].paid
                    && forall j :: 0 <= j < i ==> classes[j].id != id by {
        if r.Some? {
          var i :| 0 <= i < |classes[1..]| && classes[1..][i].id == id && r.value.paid == !classes[1..][i].paid
                   && forall j :: 0 <= j < i ==> classes[1..][j].id != id;
          assert forall j :: 0 <= j < i + 1 ==> classes[j].id != id by {
            forall j | 0 <= j < i + 1 ensures classes[j].id != id {
              if j > 0 { assert classes[j] == classes[1..][j - 1]; }
            }
          }
        }
      }
      r
  }

  /** With unique ids, the toggle flips the flag of exactly the lesson with the id and changes
      nothing else; an unknown id sends nothing. */
  lemma TogglePaidFlipsOne(store: seq<MusicClass>, id: string)
    requires UniqueIds(store)
    ensures var u := TogglePaidRequest(ToClasses(store), id);
      (u.None? <==> forall c :: c in store ==> c.id != id) &&
      (u.Some? ==>
         exists i :: 0 <= i < |store| && store[i].id == id &&
           ApplyPaidUpdates(store, [u.value]) == store[i := store[i].(paid := !store[i].paid)])
  {
    var view := ToClasses(store);
    var u := TogglePaidRequest(view, id);
    if u.None? {
      forall c | c in store ensures c.id != id {
        var k :| 0 <= k < |store| && store[k] == c;
        assert view[k] in view;
      }
    } else {
      var i :| 0 <= i < |view| && view[i].id == id && u.value.paid == !view[i].paid;
      assert u.value == PaidUpdate(store[i].id, !store[i].paid);
      ApplyOne(store, u.value);
      SetPaidUnique(store, i, !store[i].paid);
    }
  }

  lemma ApplyOne(store: seq<MusicClass>, u: PaidUpdate)
    ensures ApplyPaidUpdates(store, [u]) == SetPaid(store, u)
  {
    assert [u][1..] == [];
  }

  /** With unique ids, setting the flag by the id of one lesson changes that lesson only. */
  lemma SetPaidUnique(store: seq<MusicClass>, i: int, v: bool)
    requires UniqueIds(store) && 0 <= i < |store|
    ensures SetPaid(store, PaidUpdate(store[i].id, v)) == store[i := store[i].(paid := v)]
  {
    var r := SetPaid(store, PaidUpdate(store[i].id, v));
    forall j | 0 <= j < |store| ensures r[j] == store[i := store[i].(paid := v)][j] {
      if j < i { assert store[j].id != store[i].id; }
      else if j > i { assert store[i].id != store[j].id; }
    }
  }

  // ---- Derived lists and totals ----

  /** The instrument filter: "all" shows every lesson, any other value the lessons of that
      instrument, in order. */
  function FilteredClasses(classes: seq<Class>, filterInstrument: string): (r: seq<Class>)
    ensures filterInstrument == "all" ==> r == classes
    ensures filterInstrument != "all" ==> forall c :: c in r <==> c in classes && c.instrument == filterInstrument
    ensures filterInstrument != "all" ==>
      forall c :: multiset(r)[c] == if c.instrument == filterInstrument then multiset(classes)[c] else 0
    ensures IsSubsequence(r, classes)
  {
    if filterInstrument == "all" then
      SubsequenceRefl(classes);
      classes
    else
      var p := (c: Class) => c.instrument == filterInstrument;
      FilterExact(classes, p);
      Filter(classes, p)
  }

  function InstrumentOf(c: Class): string { c.instrument }

  /** `Array.from(new Set(classes.map(c => c.instrument)))`: each instrument once, in order of
      first appearance (an earlier instrument has a lesson before any lesson of a later one). */
  function Instruments(classes: seq<Class>): (r: seq<string>)
    ensures NoDuplicates(r)
    ensures forall x :: x in r <==> exists c :: c in classes && c.instrument == x
    ensures forall i, j :: 0 <= i < j < |r| ==> SeenBefore(classes, InstrumentOf, r[i], r[j])
  {
    KeysInOrderFirstSeen(classes, InstrumentOf);
    KeysInOrder(classes, InstrumentOf)
  }

  predicate ClassPaid(c: Class) { c.paid }
  predicate ClassUnpaid(c: Class) { !c.paid }
  function ClassFee(c: Class): int { c.feePerClass }
  function PaidFee(c: Class): int { if c.paid then c.feePerClass else 0 }

  /** Fees of the paid lessons. */
  function TotalRevenue(classes: seq<Class>): int {
    SumBy(Filter(classes, ClassPaid), ClassFee)
  }

  /** Revenue is the sum of each lesson's fee counted when paid. */
  lemma {:induction false} TotalRevenueByLesson(classes: seq<Class>)
    ensures TotalRevenue(classes) == SumBy(classes, PaidFee)
  {
    if classes != [] {
      TotalRevenueByLesson(classes[1..]);
    }
  }

  /** Revenue and the fees still open add up to the fees of all lessons. */
  lemma TotalRevenueSplit(classes: seq<Class>)
    ensures TotalRevenue(classes) + SumBy(Filter(classes, ClassUnpaid), ClassFee) == SumBy(classes, ClassFee)
  {
    SumByFilterSplit(classes, ClassPaid, ClassUnpaid, ClassFee);
  }

  /** The toggle moves revenue by exactly the toggled lesson's (defaulted) fee, up when it
      becomes paid and down when it becomes unpaid. */
  lemma TogglePaidRevenue(store: seq<MusicClass>, i: nat)
    requires i < |store|
    ensures var after := store[i := store[i].(paid := !store[i].paid)];
      var fee := FeeOrDefault(Some(store[i].feePerClass));
      TotalRevenue(ToClasses(after)) == TotalRevenue(ToClasses(store)) + if store[i].paid then -fee else fee
  {
    var after := store[i := store[i].(paid := !store[i].paid)];
    var view := ToClasses(store);
    assert ToClasses(after) == view[i := ToClass(after[i])];
    TotalRevenueByLesson(view);
    TotalRevenueByLesson(ToClasses(after));
    SumByUpdate(view, i, ToClass(after[i]), PaidFee);
  }
}
