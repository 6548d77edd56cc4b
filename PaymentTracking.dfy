/**
 * The older per-student payment view over lessons identified by the student's
 * display name: one summary per name, built as a `Map` from name to summary
 * (a later lesson with the same name overwrites the earlier value but keeps
 * the key's position), the lesson counts, the unpaid amount at 50 per
 * lesson, the status, and the lists by status.
 */
module PaymentTracking {
  import opened Wrappers
  import opened Seqs

  /** A lesson as this view receives it. */
  datatype LegacyClass = LegacyClass(
    id: int,
    student: string,
    date: string,
    time: string,
    instrument: string,
    paid: bool,
    notes: Option<string>)

  datatype Status = Paid | Pending | Overdue

  datatype StudentPayment = StudentPayment(
    id: int,
    student: string,
    instrument: string,
    lastClass: string,
    totalClasses: nat,
    paidClasses: nat,
    unpaidAmount: int,
    dueDate: string,
    status: Status)

  /** The fixed per-lesson amount the view charges. */
  const FeePerUnpaidClass := 50

  function StudentOf(c: LegacyClass): string { c.student }

  function Named(name: string): LegacyClass -> bool {
    (c: LegacyClass) => c.student == name
  }

  function NamedPaid(name: string): LegacyClass -> bool {
    (c: LegacyClass) => c.student == name && c.paid
  }

  function NamedUnpaid(name: string): LegacyClass -> bool {
    (c: LegacyClass) => c.student == name && !c.paid
  }

  /** The value built for one lesson `cls`: its own id, instrument and date, and counts over
      all lessons with its name. `dueDate` stands for "a week from now", which comes from
      the clock. */
  function Summary(classes: seq<LegacyClass>, cls: LegacyClass, dueDate: string): StudentPayment {
    var unpaid := |Filter(classes, NamedUnpaid(cls.student))|;
    StudentPayment(
      cls.id, cls.student, cls.instrument, cls.date,
      |Filter(classes, Named(cls.student))|,
      |Filter(classes, NamedPaid(cls.student))|,
      unpaid * FeePerUnpaidClass,
      dueDate,
      if unpaid > 0 then Pending else Paid)
  }

  /** The counts of a summary: paid lessons never outnumber lessons, the unpaid amount is 50
      per unpaid lesson, and the status is pending exactly when some lesson of that name is
      unpaid; never overdue. */
  lemma SummaryCounts(classes: seq<LegacyClass>, cls: LegacyClass, dueDate: string)
    ensures Summary(classes, cls, dueDate).paidClasses <= Summary(classes, cls, dueDate).totalClasses
    ensures Summary(classes, cls, dueDate).unpaidAmount
         == FeePerUnpaidClass * (Summary(classes, cls, dueDate).totalClasses - Summary(classes, cls, dueDate).paidClasses)
    ensures Summary(classes, cls, dueDate).status == Pending
        <==> exists c :: c in classes && c.student == cls.student && !c.paid
    ensures Summary(classes, cls, dueDate).status != Overdue
  {
    FilterSplitWithin(classes, Named(cls.student), NamedUnpaid(cls.student), NamedPaid(cls.student));
    var unpaid := Filter(classes, NamedUnpaid(cls.student));
    if |unpaid| > 0 {
      assert unpaid[0] in unpaid;
    }
  }

  // ---- The `Map` ----

  /** A `Map`: its keys in insertion order and the value stored under each. */
  datatype JsMap = JsMap(keys: seq<string>, values: map<string, StudentPayment>)

  /** `map.set(k, v)`: a new key goes to the end, an existing key keeps its place and gets the
      new value. */
  function MapSet(m: JsMap, k: string, v: StudentPayment): JsMap {
    JsMap(if k in m.values then m.keys else m.keys + [k], m.values[k := v])
  }

  /** `new Map(prefix.map(cls => [cls.student, Summary(cls)]))`: the entries set in order. */
  function MapOf(prefix: seq<LegacyClass>, classes: seq<LegacyClass>, dueDate: string): JsMap {
    if prefix == [] then JsMap([], map[])
    else
      var x := prefix[|prefix| - 1];
      MapSet(MapOf(prefix[..|prefix| - 1], classes, dueDate), x.student, Summary(classes, x, dueDate))
  }

  /** The index of the last lesson of `s` with the given name, or -1 when there is none. */
  function LastIndex(s: seq<LegacyClass>, name: string): (j: int)
    ensures -1 <= j < |s|
    ensures j >= 0 ==> s[j].student == name
    ensures forall j' :: j < j' < |s| ==> s[j'].student != name
  {
    if s == [] then -1
    else if s[|s| - 1].student == name then |s| - 1
    else LastIndex(s[..|s| - 1], name)
  }

  /** The `Map` built from `prefix`: its keys are the distinct names in order of first
      appearance, and each holds the summary built for the last lesson with that name. */
  ghost predicate MapOfPrefix(m: JsMap, prefix: seq<LegacyClass>, classes: seq<LegacyClass>, dueDate: string) {
    && m.keys == KeysInOrder(prefix, StudentOf)
    && (forall k :: k in m.values <==> k in m.keys)
    && (forall k :: k in m.values ==>
          0 <= LastIndex(prefix, k) && m.values[k] == Summary(classes, prefix[LastIndex(prefix, k)], dueDate))
  }

  lemma {:induction false} MapOfShape(prefix: seq<LegacyClass>, classes: seq<LegacyClass>, dueDate: string)
    ensures MapOfPrefix(MapOf(prefix, classes, dueDate), prefix, classes, dueDate)
  {
    if prefix != [] {
      var init, x := prefix[..|prefix| - 1], prefix[|prefix| - 1];
      assert prefix == init + [x];
      var m := MapOf(init, classes, dueDate);
      MapOfShape(init, classes, dueDate);
      KeysInOrderSnoc(init, x, StudentOf);
      var m' := MapOf(prefix, classes, dueDate);
      assert m' == MapSet(m, x.student, Summary(classes, x, dueDate));
      assert m'.keys == KeysInOrder(prefix, StudentOf);
      assert forall k :: k in m'.values <==> k in m'.keys;
      LastSummaries(m, init, x, classes, dueDate);
      MapOfPrefixIntro(m', prefix, classes, dueDate);
    }
  }

  /** After `map.set` for the next lesson, each name still holds the summary for its last
      lesson. */
  lemma LastSummaries(m: JsMap, init: seq<LegacyClass>, x: LegacyClass, classes: seq<LegacyClass>, dueDate: string)
    requires forall k :: k in m.values ==>
      0 <= LastIndex(init, k) && m.values[k] == Summary(classes, init[LastIndex(init, k)], dueDate)
    ensures var m' := MapSet(m, x.student, Summary(classes, x, dueDate));
      forall k :: k in m'.values ==>
        0 <= LastIndex(init + [x], k) && m'.values[k] == Summary(classes, (init + [x])[LastIndex(init + [x], k)], dueDate)
  {
    var prefix := init + [x];
    assert prefix[..|prefix| - 1] == init;
    var m' := MapSet(m, x.student, Summary(classes, x, dueDate));
    forall k | k in m'.values
      ensures 0 <= LastIndex(prefix, k) && m'.values[k] == Summary(classes, prefix[LastIndex(prefix, k)], dueDate)
    {
      if k != x.student {
        assert LastIndex(prefix, k) == LastIndex(init, k);
        assert prefix[LastIndex(init, k)] == init[LastIndex(init, k)];
      }
    }
  }

  lemma MapOfPrefixIntro(m: JsMap, prefix: seq<LegacyClass>, classes: seq<LegacyClass>, dueDate: string)
    requires m.keys == KeysInOrder(prefix, StudentOf)
    requires forall k :: k in m.values <==> k in m.keys
    requires forall k :: k in m.values ==>
      0 <= LastIndex(prefix, k) && m.values[k] == Summary(classes, prefix[LastIndex(prefix, k)], dueDate)
    ensures MapOfPrefix(m, prefix, classes, dueDate)
  {
  }

  /** `Array.from(map.values())`. */
  function StudentPayments(classes: seq<LegacyClass>, dueDate: string): seq<StudentPayment> {
    var m := MapOf(classes, classes, dueDate);
    MapOfShape(classes, classes, dueDate);
    seq(|m.keys|, i requires 0 <= i < |m.keys| => m.values[m.keys[i]])
  }

  /** One summary per distinct name, in order of first appearance, each built for the last
      lesson with that name. */
  lemma StudentPaymentsShape(classes: seq<LegacyClass>, dueDate: string)
    ensures |StudentPayments(classes, dueDate)| == |KeysInOrder(classes, StudentOf)|
    ensures forall i :: 0 <= i < |KeysInOrder(classes, StudentOf)| ==>
      && 0 <= LastIndex(classes, KeysInOrder(classes, StudentOf)[i])
      && StudentPayments(classes, dueDate)[i]
         == Summary(classes, classes[LastIndex(classes, KeysInOrder(classes, StudentOf)[i])], dueDate)
  {
    MapOfShape(classes, classes, dueDate);
  }

  /** The lesson a summary was built from. */
  lemma SourceOf(classes: seq<LegacyClass>, dueDate: string, p: StudentPayment) returns (j: int)
    requires p in StudentPayments(classes, dueDate)
    ensures 0 <= j < |classes| && j == LastIndex(classes, p.student)
    ensures p == Summary(classes, classes[j], dueDate)
  {
    StudentPaymentsShape(classes, dueDate);
    var ps := StudentPayments(classes, dueDate);
    var i :| 0 <= i < |ps| && ps[i] == p;
    j := LastIndex(classes, KeysInOrder(classes, StudentOf)[i]);
  }

  /** The summaries are named after the keys, in key order. */
  lemma PaymentNames(classes: seq<LegacyClass>, dueDate: string)
    ensures |StudentPayments(classes, dueDate)| == |KeysInOrder(classes, StudentOf)|
    ensures forall i :: 0 <= i < |StudentPayments(classes, dueDate)| ==>
      StudentPayments(classes, dueDate)[i].student == KeysInOrder(classes, StudentOf)[i]
  {
    StudentPaymentsShape(classes, dueDate);
  }

  /** The summary for the name of a given lesson. */
  lemma PaymentOf(classes: seq<LegacyClass>, dueDate: string, c: LegacyClass) returns (p: StudentPayment)
    requires c in classes
    ensures p in StudentPayments(classes, dueDate) && p.student == c.student
  {
    PaymentNames(classes, dueDate);
    var ks := KeysInOrder(classes, StudentOf);
    assert StudentOf(c) in ks;
    var i :| 0 <= i < |ks| && ks[i] == c.student;
    p := StudentPayments(classes, dueDate)[i];
  }

  /** There is exactly one summary per name that occurs, and one only for names that occur. */
  lemma OnePerStudent(classes: seq<LegacyClass>, dueDate: string)
    ensures forall i, j :: 0 <= i < j < |StudentPayments(classes, dueDate)| ==>
      StudentPayments(classes, dueDate)[i].student != StudentPayments(classes, dueDate)[j].student
    ensures forall c :: c in classes ==> exists p :: p in StudentPayments(classes, dueDate) && p.student == c.student
    ensures forall p :: p in StudentPayments(classes, dueDate) ==> exists c :: c in classes && c.student == p.student
  {
    PaymentNames(classes, dueDate);
    forall c | c in classes ensures exists p :: p in StudentPayments(classes, dueDate) && p.student == c.student {
      var p := PaymentOf(classes, dueDate, c);
    }
    forall p | p in StudentPayments(classes, dueDate) ensures exists c :: c in classes && c.student == p.student {
      var j := SourceOf(classes, dueDate, p);
      assert classes[j] in classes;
    }
  }

  /** Map last-write-wins: the id, instrument and last date of a summary are those of the last
      lesson with that name in input order. */
  lemma LastWriteWins(classes: seq<LegacyClass>, dueDate: string)
    ensures forall p :: p in StudentPayments(classes, dueDate) ==>
      exists j ::
        && 0 <= j < |classes| && classes[j].student == p.student
        && p.id == classes[j].id && p.instrument == classes[j].instrument && p.lastClass == classes[j].date
        && (forall j' :: j < j' < |classes| ==> classes[j'].student != p.student)
  {
    forall p | p in StudentPayments(classes, dueDate)
      ensures exists j ::
        && 0 <= j < |classes| && classes[j].student == p.student
        && p.id == classes[j].id && p.instrument == classes[j].instrument && p.lastClass == classes[j].date
        && (forall j' :: j < j' < |classes| ==> classes[j'].student != p.student)
    {
      var j := SourceOf(classes, dueDate, p);
    }
  }

  // ---- Lists by status ----

  predicate IsOverdue(p: StudentPayment) { p.status == Overdue }
  predicate IsPending(p: StudentPayment) { p.status == Pending }
  predicate IsPaidUp(p: StudentPayment) { p.status == Paid }
  predicate NotOverdue(p: StudentPayment) { p.status != Overdue }

  /** The figures of each summary: its lesson count is the number of lessons with its name,
      paid lessons never outnumber them, the unpaid amount is 50 per unpaid lesson, the status
      is pending exactly when the student has an unpaid lesson and is never overdue, and the
      due date is the one given. */
  lemma PaymentRows(classes: seq<LegacyClass>, dueDate: string)
    ensures forall p :: p in StudentPayments(classes, dueDate) ==>
      p.totalClasses == |Filter(classes, Named(p.student))| && p.dueDate == dueDate
    ensures forall p :: p in StudentPayments(classes, dueDate) ==>
      (p.status == Pending <==> exists c :: c in classes && c.student == p.student && !c.paid)
    ensures forall p :: p in StudentPayments(classes, dueDate) ==> p.status != Overdue
    ensures forall p :: p in StudentPayments(classes, dueDate) ==>
      p.paidClasses <= p.totalClasses && p.unpaidAmount == FeePerUnpaidClass * (p.totalClasses - p.paidClasses)
  {
    forall p | p in StudentPayments(classes, dueDate)
      ensures p.totalClasses == |Filter(classes, Named(p.student))| && p.dueDate == dueDate
      ensures p.status == Pending <==> exists c :: c in classes && c.student == p.student && !c.paid
      ensures p.status != Overdue
      ensures p.paidClasses <= p.totalClasses && p.unpaidAmount == FeePerUnpaidClass * (p.totalClasses - p.paidClasses)
    {
      var j := SourceOf(classes, dueDate, p);
      SummaryCounts(classes, classes[j], dueDate);
    }
  }

  /** The overdue alert list is always empty, and every summary is in exactly one of the
      pending and paid lists. */
  lemma StatusLists(classes: seq<LegacyClass>, dueDate: string)
    ensures Filter(StudentPayments(classes, dueDate), IsOverdue) == []
    ensures |Filter(StudentPayments(classes, dueDate), IsPending)| + |Filter(StudentPayments(classes, dueDate), IsPaidUp)|
         == |StudentPayments(classes, dueDate)|
    ensures forall p :: p in StudentPayments(classes, dueDate) ==>
      (p in Filter(StudentPayments(classes, dueDate), IsPending) <==> p !in Filter(StudentPayments(classes, dueDate), IsPaidUp))
  {
    var ps := StudentPayments(classes, dueDate);
    PaymentRows(classes, dueDate);
    FilterNone(ps, IsOverdue);
    FilterSplitWithin(ps, NotOverdue, IsPending, IsPaidUp);
    FilterAll(ps, NotOverdue);
  }
}
