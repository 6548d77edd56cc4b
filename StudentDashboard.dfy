/**
 * The student's dashboard over their own lessons: the completed and upcoming
 * counts, the paid and due totals, the lessons grouped by month with a total
 * and a paid flag per month, and the payment status of the current month.
 */
module StudentDashboard {
  import opened Seqs
  import opened Lessons

  /** The fields of a lesson the student view keeps. */
  datatype StudentClass = StudentClass(
    id: string,
    date: string,
    time: string,
    instrument: string,
    feePerClass: int,
    completed: bool,
    paid: bool,
    teacherId: string)

  function LessonFee(c: StudentClass): int { c.feePerClass }
  predicate LessonPaid(c: StudentClass) { c.paid }
  predicate LessonUnpaid(c: StudentClass) { !c.paid }
  predicate LessonCompleted(c: StudentClass) { c.completed }
  predicate LessonUpcoming(c: StudentClass) { !c.completed }
  function LessonMonth(c: StudentClass): string { Month(c.date) }

  // ---- Counts and totals ----

  /** `classes.filter((c) => c.completed).length`. */
  function CompletedClasses(classes: seq<StudentClass>): (n: nat)
    ensures n <= |classes|
  {
    |Filter(classes, LessonCompleted)|
  }

  /** The "Upcoming" figure `totalClasses - completedClasses` is never negative and counts
      exactly the lessons not completed. */
  lemma UpcomingCount(classes: seq<StudentClass>)
    ensures |classes| - CompletedClasses(classes) >= 0
    ensures |classes| - CompletedClasses(classes) == |Filter(classes, LessonUpcoming)|
  {
    FilterSplitLength(classes, LessonCompleted, LessonUpcoming);
  }

  /** `totalPaid`: the fees of the paid lessons. */
  function TotalPaid(classes: seq<StudentClass>): int {
    SumBy(Filter(classes, LessonPaid), LessonFee)
  }

  /** `totalDue`: the fees of the unpaid lessons. */
  function TotalDue(classes: seq<StudentClass>): int {
    SumBy(Filter(classes, LessonUnpaid), LessonFee)
  }

  /** Paid and due together are the fees of all lessons. */
  lemma PaidPlusDue(classes: seq<StudentClass>)
    ensures TotalPaid(classes) + TotalDue(classes) == SumBy(classes, LessonFee)
  {
    SumByFilterSplit(classes, LessonPaid, LessonUnpaid, LessonFee);
  }

  // ---- Monthly payments ----

  /** One entry of `monthlyPayments`. */
  datatype MonthEntry = MonthEntry(month: string, total: int, paid: bool, classCount: nat)

  predicate AllLessonsPaid(s: seq<StudentClass>) {
    forall i :: 0 <= i < |s| ==> s[i].paid
  }

  /** The lessons of month `m` in input order: `classesByMonth[m]` once the `reduce` is done. */
  function MonthGroup(classes: seq<StudentClass>, m: string): seq<StudentClass> {
    Filter(classes, KeyIs(LessonMonth, m))
  }

  /** The projection of one dictionary entry `[month, monthClasses]`. */
  function Entry(m: string, g: seq<StudentClass>): MonthEntry {
    MonthEntry(m, SumBy(g, LessonFee), AllLessonsPaid(g), |g|)
  }

  /** The projected entries, one per month of `ms`. */
  function Entries(ms: seq<string>, classes: seq<StudentClass>): seq<MonthEntry> {
    if ms == [] then [] else [Entry(ms[0], MonthGroup(classes, ms[0]))] + Entries(ms[1..], classes)
  }

  function EntryMonth(e: MonthEntry): string { e.month }
  function EntryTotal(e: MonthEntry): int { e.total }
  function EntryCount(e: MonthEntry): int { e.classCount }
  function Once(c: StudentClass): int { 1 }

  /** `Object.entries(classesByMonth).map(…).sort((a, b) => b.month.localeCompare(a.month))`. */
  function MonthlyPayments(classes: seq<StudentClass>): seq<MonthEntry> {
    SortDesc(Entries(KeysInOrder(classes, LessonMonth), classes), EntryMonth)
  }

  lemma {:induction false} EntriesAt(ms: seq<string>, classes: seq<StudentClass>)
    ensures |Entries(ms, classes)| == |ms|
    ensures forall i :: 0 <= i < |ms| ==> Entries(ms, classes)[i] == Entry(ms[i], MonthGroup(classes, ms[i]))
  {
    if ms != [] {
      EntriesAt(ms[1..], classes);
    }
  }

  /** The projected dictionary entries are the entries in dictionary order. */
  lemma DictionaryEntries(classes: seq<StudentClass>, months: seq<string>, groups: map<string, seq<StudentClass>>, rows: seq<MonthEntry>)
    requires forall m :: m in months ==> m in groups && groups[m] == MonthGroup(classes, m)
    requires |rows| == |months|
    requires forall i :: 0 <= i < |months| ==> rows[i] == Entry(months[i], groups[months[i]])
    ensures rows == Entries(months, classes)
  {
    EntriesAt(months, classes);
  }

  /** The computation as the component does it: the `reduce` into `classesByMonth`, the
      projection of its entries, the sort. */
  method BuildMonthlyPayments(classes: seq<StudentClass>) returns (payments: seq<MonthEntry>)
    ensures payments == MonthlyPayments(classes)
  {
    var months, classesByMonth := GroupBy(classes, LessonMonth);
    var rows := seq(|months|, i requires 0 <= i < |months| => Entry(months[i], classesByMonth[months[i]]));
    DictionaryEntries(classes, months, classesByMonth, rows);
    payments := SortDesc(rows, EntryMonth);
  }

  lemma EntriesPermuted(classes: seq<StudentClass>)
    ensures multiset(MonthlyPayments(classes)) == multiset(Entries(KeysInOrder(classes, LessonMonth), classes))
  {
    SortDescSorted(Entries(KeysInOrder(classes, LessonMonth), classes), EntryMonth);
  }

  /** A month of the dictionary has lessons. */
  lemma MonthHasLessons(classes: seq<StudentClass>, m: string)
    requires m in KeysInOrder(classes, LessonMonth)
    ensures MonthGroup(classes, m) != []
  {
    var c :| c in classes && LessonMonth(c) == m;
    assert c in MonthGroup(classes, m);
  }

  /** Each entry of the view is the projection of a non-empty month of lessons. */
  lemma EntryIsItsMonth(classes: seq<StudentClass>, e: MonthEntry)
    requires e in MonthlyPayments(classes)
    ensures MonthGroup(classes, e.month) != []
    ensures e == Entry(e.month, MonthGroup(classes, e.month))
  {
    var ms := KeysInOrder(classes, LessonMonth);
    EntriesPermuted(classes);
    EntriesAt(ms, classes);
    assert e in multiset(Entries(ms, classes));
    var i :| 0 <= i < |ms| && Entries(ms, classes)[i] == e;
    MonthHasLessons(classes, ms[i]);
  }

  lemma EntryFacts(classes: seq<StudentClass>, e: MonthEntry)
    requires e in MonthlyPayments(classes)
    ensures MonthGroup(classes, e.month) != []
    ensures forall c :: c in MonthGroup(classes, e.month) <==> c in classes && Month(c.date) == e.month
    ensures e.total == SumBy(MonthGroup(classes, e.month), LessonFee)
    ensures e.classCount == |MonthGroup(classes, e.month)|
    ensures e.paid <==> forall c :: c in MonthGroup(classes, e.month) ==> c.paid
  {
    EntryIsItsMonth(classes, e);
    var g := MonthGroup(classes, e.month);
    if !e.paid {
      var i :| 0 <= i < |g| && !g[i].paid;
      assert g[i] in g;
    }
  }

  /** Each entry describes the lessons of its month: there is at least one, the total is
      their fee sum, the count their number, and the flag is set iff all are paid. */
  lemma MonthlyEntries(classes: seq<StudentClass>)
    ensures forall e :: e in MonthlyPayments(classes) ==>
      && MonthGroup(classes, e.month) != []
      && (forall c :: c in MonthGroup(classes, e.month) <==> c in classes && Month(c.date) == e.month)
      && e.total == SumBy(MonthGroup(classes, e.month), LessonFee)
      && e.classCount == |MonthGroup(classes, e.month)|
      && (e.paid <==> forall c :: c in MonthGroup(classes, e.month) ==> c.paid)
  {
    forall e | e in MonthlyPayments(classes)
      ensures MonthGroup(classes, e.month) != []
      ensures forall c :: c in MonthGroup(classes, e.month) <==> c in classes && Month(c.date) == e.month
      ensures e.total == SumBy(MonthGroup(classes, e.month), LessonFee)
      ensures e.classCount == |MonthGroup(classes, e.month)|
      ensures e.paid <==> forall c :: c in MonthGroup(classes, e.month) ==> c.paid
    {
      EntryFacts(classes, e);
    }
  }

  /** Every lesson's month has an entry. */
  lemma MonthlyCover(classes: seq<StudentClass>)
    ensures forall c :: c in classes ==> exists e :: e in MonthlyPayments(classes) && e.month == Month(c.date)
  {
    var ms := KeysInOrder(classes, LessonMonth);
    EntriesPermuted(classes);
    EntriesAt(ms, classes);
    forall c | c in classes ensures exists e :: e in MonthlyPayments(classes) && e.month == Month(c.date) {
      assert LessonMonth(c) in ms;
      var i :| 0 <= i < |ms| && ms[i] == LessonMonth(c);
      assert Entries(ms, classes)[i] in multiset(MonthlyPayments(classes));
    }
  }

  /** The entries are ordered by month, latest first, and no month appears twice, so the
      months strictly decrease. */
  lemma MonthlySorted(classes: seq<StudentClass>)
    ensures SortedDesc(MonthlyPayments(classes), EntryMonth)
    ensures forall i, j :: 0 <= i < j < |MonthlyPayments(classes)| ==>
      MonthlyPayments(classes)[i].month != MonthlyPayments(classes)[j].month
  {
    var ms := KeysInOrder(classes, LessonMonth);
    var ps := MonthlyPayments(classes);
    var rows := Entries(ms, classes);
    EntriesAt(ms, classes);
    SortDescSorted(rows, EntryMonth);
    forall i, j | 0 <= i < j < |rows| ensures rows[i] != rows[j] {
      assert rows[i].month == ms[i] && rows[j].month == ms[j];
    }
    NoDuplicatesPermutation(rows, ps);
    forall i, j | 0 <= i < j < |ps| ensures ps[i].month != ps[j].month {
      EntryIsItsMonth(classes, ps[i]);
      EntryIsItsMonth(classes, ps[j]);
    }
  }

  /** Summing over the entries sums over the months. */
  lemma {:induction false} EntriesTotals(ms: seq<string>, classes: seq<StudentClass>)
    ensures SumBy(Entries(ms, classes), EntryTotal) == SumOverKeys(ms, classes, LessonMonth, LessonFee)
    ensures SumBy(Entries(ms, classes), EntryCount) == SumOverKeys(ms, classes, LessonMonth, Once)
  {
    if ms != [] {
      EntriesTotals(ms[1..], classes);
      SumByOnes(MonthGroup(classes, ms[0]), Once);
    }
  }

  /** The months partition the lessons: the counts add up to the number of lessons. */
  lemma MonthlyCount(classes: seq<StudentClass>)
    ensures SumBy(MonthlyPayments(classes), EntryCount) == |classes|
  {
    var ms := KeysInOrder(classes, LessonMonth);
    EntriesPermuted(classes);
    EntriesTotals(ms, classes);
    GroupsPartitionSum(ms, classes, LessonMonth, Once);
    SumByOnes(classes, Once);
    SumByPermutation(MonthlyPayments(classes), Entries(ms, classes), EntryCount);
  }

  /** The monthly totals add up to the fees of all lessons. */
  lemma MonthlyTotal(classes: seq<StudentClass>)
    ensures SumBy(MonthlyPayments(classes), EntryTotal) == SumBy(classes, LessonFee)
  {
    var ms := KeysInOrder(classes, LessonMonth);
    EntriesPermuted(classes);
    EntriesTotals(ms, classes);
    GroupsPartitionSum(ms, classes, LessonMonth, LessonFee);
    SumByPermutation(MonthlyPayments(classes), Entries(ms, classes), EntryTotal);
  }

  // ---- Current month ----

  /** The status card. `nextDueDate` is not modelled. */
  datatype PaymentStatus = PaymentStatus(paid: bool, amount: int, dueDate: string)

  /** `classes.filter(cls => cls.date.startsWith(currentMonth))`. */
  function CurrentMonthClasses(classes: seq<StudentClass>, currentMonth: string): (r: seq<StudentClass>)
    ensures forall c :: c in r <==> c in classes && StartsWith(c.date, currentMonth)
    ensures IsSubsequence(r, classes)
    ensures forall c :: multiset(r)[c] == if StartsWith(c.date, currentMonth) then multiset(classes)[c] else 0
  {
    var p := (c: StudentClass) => StartsWith(c.date, currentMonth);
    FilterExact(classes, p);
    Filter(classes, p)
  }

  /** `paymentStatus` for the month the clock gives. */
  function CurrentPaymentStatus(classes: seq<StudentClass>, currentMonth: string): (r: PaymentStatus)
    ensures r.dueDate == currentMonth
    ensures r.amount == SumBy(CurrentMonthClasses(classes, currentMonth), LessonFee)
    ensures r.paid <==>
      && (exists c :: c in classes && StartsWith(c.date, currentMonth))
      && (forall c :: c in classes && StartsWith(c.date, currentMonth) ==> c.paid)
  {
    var current := CurrentMonthClasses(classes, currentMonth);
    var allPaid := |current| > 0 && AllLessonsPaid(current);
    assert |current| > 0 ==> current[0] in current;
    assert !AllLessonsPaid(current) ==> exists i :: 0 <= i < |current| && !current[i].paid;
    PaymentStatus(allPaid, SumBy(current, LessonFee), currentMonth)
  }

  /** The status card agrees with the month's entry: for a seven-character month key, a month
      with an entry shows that entry's total and flag, and a month without lessons shows
      nothing due and is not paid. */
  lemma StatusMatchesEntry(classes: seq<StudentClass>, currentMonth: string)
    requires |currentMonth| == 7
    ensures forall e :: e in MonthlyPayments(classes) && e.month == currentMonth ==>
      CurrentPaymentStatus(classes, currentMonth).amount == e.total
      && CurrentPaymentStatus(classes, currentMonth).paid == e.paid
    ensures (forall e :: e in MonthlyPayments(classes) ==> e.month != currentMonth) ==>
      CurrentPaymentStatus(classes, currentMonth).amount == 0
      && !CurrentPaymentStatus(classes, currentMonth).paid
  {
    forall c: StudentClass ensures StartsWith(c.date, currentMonth) == (LessonMonth(c) == currentMonth) {
      StartsWithMonth(c.date, currentMonth);
    }
    FilterSame(classes, (c: StudentClass) => StartsWith(c.date, currentMonth), KeyIs(LessonMonth, currentMonth));
    MonthlyEntries(classes);
    MonthlyCover(classes);
    if forall e :: e in MonthlyPayments(classes) ==> e.month != currentMonth {
      FilterNone(classes, KeyIs(LessonMonth, currentMonth));
    }
  }
}
