/**
 * The teacher's monthly payment view: lessons grouped per student and month,
 * each group summarised with its fee total and an all-paid flag, the groups
 * sorted by month, the outstanding and collected totals, the distinct-student
 * count, and the toggle that marks a whole group paid or unpaid.
 */
module MonthlyPaymentTracking {
  import opened Wrappers
  import opened Seqs
  import opened Lessons

  /** The dictionary key of a lesson: `${studentEmail || studentId}_${date.substring(0, 7)}`. */
  function GroupKey(c: MusicClass): string {
    StudentKey(c) + "_" + Month(c.date)
  }

  /** For lessons with full dates the key is injective: equal keys mean the same student
      key and the same month, even when the student key itself contains `_`. */
  lemma GroupKeyInjective(a: MusicClass, b: MusicClass)
    requires |a.date| >= 7 && |b.date| >= 7
    ensures GroupKey(a) == GroupKey(b) <==> StudentKey(a) == StudentKey(b) && Month(a.date) == Month(b.date)
  {
    var ka, kb := GroupKey(a), GroupKey(b);
    assert ka[|ka| - 7..] == Month(a.date) && ka[..|ka| - 8] == StudentKey(a);
    assert kb[|kb| - 7..] == Month(b.date) && kb[..|kb| - 8] == StudentKey(b);
  }

  /** Changing only the paid flag keeps a lesson in its group. */
  lemma PaidKeepsKey(c: MusicClass, v: bool)
    ensures GroupKey(c.(paid := v)) == GroupKey(c)
  {
  }

  /** One row of the view. */
  datatype MonthlyPayment = MonthlyPayment(
    studentName: string,
    studentEmail: Option<string>,
    month: string,
    classes: seq<MusicClass>,
    totalFee: int,
    allPaid: bool,
    classCount: nat)

  /** `classes.every(cls => cls.paid)`. */
  predicate AllPaid(s: seq<MusicClass>) {
    forall i :: 0 <= i < |s| ==> s[i].paid
  }

  /** The lessons of the store carrying key `k`, in store order: what `acc[k].classes`
      holds once the `reduce` is done. */
  function Group(classes: seq<MusicClass>, k: string): seq<MusicClass> {
    Filter(classes, KeyIs(GroupKey, k))
  }

  /** The projection of one group: the name, email and month come from the lesson that
      created the entry, the fee total and flag from all members. */
  function Summarize(g: seq<MusicClass>): MonthlyPayment
    requires g != []
  {
    MonthlyPayment(g[0].studentName, g[0].studentEmail, Month(g[0].date), g, SumBy(g, Fee), AllPaid(g), |g|)
  }

  /** The projected groups, one per key of `ks`. */
  function Summaries(ks: seq<string>, classes: seq<MusicClass>): seq<MonthlyPayment>
    requires forall k :: k in ks ==> Group(classes, k) != []
  {
    if ks == [] then [] else [Summarize(Group(classes, ks[0]))] + Summaries(ks[1..], classes)
  }

  function PaymentMonth(p: MonthlyPayment): string { p.month }
  function TotalFee(p: MonthlyPayment): int { p.totalFee }
  function ClassCount(p: MonthlyPayment): int { p.classCount }
  function One(c: MusicClass): int { 1 }

  /** The key of the group a row was built from. */
  function PaymentKey(p: MonthlyPayment): string {
    if p.classes == [] then "" else GroupKey(p.classes[0])
  }

  /** Every key of the dictionary has a non-empty group. */
  lemma KeysHaveGroups(classes: seq<MusicClass>)
    ensures forall k :: k in KeysInOrder(classes, GroupKey) ==> Group(classes, k) != []
  {
    forall k | k in KeysInOrder(classes, GroupKey) ensures Group(classes, k) != [] {
      var x :| x in classes && GroupKey(x) == k;
      assert x in Group(classes, k);
    }
  }

  /** `Object.values(studentMonthlyData).map(…).sort((a, b) => b.month.localeCompare(a.month))`. */
  function MonthlyPayments(classes: seq<MusicClass>): seq<MonthlyPayment> {
    KeysHaveGroups(classes);
    SortDesc(Summaries(KeysInOrder(classes, GroupKey), classes), PaymentMonth)
  }

  /** The rows in dictionary order, element by element. */
  lemma {:induction false} SummariesAt(ks: seq<string>, classes: seq<MusicClass>)
    requires forall k :: k in ks ==> Group(classes, k) != []
    ensures |Summaries(ks, classes)| == |ks|
    ensures forall i :: 0 <= i < |ks| ==> Summaries(ks, classes)[i] == Summarize(Group(classes, ks[i]))
  {
    if ks != [] {
      SummariesAt(ks[1..], classes);
    }
  }

  /** A row built from key `k` carries key `k`. */
  lemma PaymentKeyOfGroup(classes: seq<MusicClass>, k: string)
    requires Group(classes, k) != []
    ensures PaymentKey(Summarize(Group(classes, k))) == k
  {
    assert Group(classes, k)[0] in Group(classes, k);
  }

  /** The entries of the dictionary, projected, are the rows in dictionary order. */
  lemma DictionaryRows(classes: seq<MusicClass>, keys: seq<string>, groups: map<string, seq<MusicClass>>, rows: seq<MonthlyPayment>)
    requires forall k :: k in keys ==> k in groups && groups[k] == Group(classes, k) && groups[k] != []
    requires |rows| == |keys|
    requires forall i :: 0 <= i < |keys| ==> rows[i] == Summarize(groups[keys[i]])
    ensures rows == Summaries(keys, classes)
  {
    SummariesAt(keys, classes);
  }

  /** The computation as the component does it: the grouping `reduce` into a dictionary,
      the projection of each entry, the sort. */
  method BuildMonthlyPayments(classes: seq<MusicClass>) returns (payments: seq<MonthlyPayment>)
    ensures payments == MonthlyPayments(classes)
  {
    var keys, groups := GroupBy(classes, GroupKey);
    var rows := seq(|keys|, i requires 0 <= i < |keys| => Summarize(groups[keys[i]]));
    DictionaryRows(classes, keys, groups, rows);
    payments := SortDesc(rows, PaymentMonth);
  }

  /** The rows of `MonthlyPayments` are the rows of the dictionary, reordered. */
  lemma RowsPermuted(classes: seq<MusicClass>)
    ensures (KeysHaveGroups(classes);
      multiset(MonthlyPayments(classes)) == multiset(Summaries(KeysInOrder(classes, GroupKey), classes)))
  {
    KeysHaveGroups(classes);
    SortDescSorted(Summaries(KeysInOrder(classes, GroupKey), classes), PaymentMonth);
  }

  /** Every row of the view is the summary of the group its key names. */
  lemma RowIsItsGroup(classes: seq<MusicClass>, p: MonthlyPayment)
    requires p in MonthlyPayments(classes)
    ensures Group(classes, PaymentKey(p)) != []
    ensures p == Summarize(Group(classes, PaymentKey(p)))
  {
    var ks := KeysInOrder(classes, GroupKey);
    KeysHaveGroups(classes);
    RowsPermuted(classes);
    SummariesAt(ks, classes);
    assert p in multiset(Summaries(ks, classes));
    var i :| 0 <= i < |ks| && Summaries(ks, classes)[i] == p;
    PaymentKeyOfGroup(classes, ks[i]);
  }

  /** The facts about one row that `MonthlyPaymentsRows` states for all of them. */
  lemma RowFacts(classes: seq<MusicClass>, p: MonthlyPayment)
    requires p in MonthlyPayments(classes)
    ensures p.classes != []
    ensures p.classes == Group(classes, PaymentKey(p))
    ensures forall c :: c in p.classes <==> c in classes && GroupKey(c) == PaymentKey(p)
    ensures p.classCount == |p.classes| && p.totalFee == SumBy(p.classes, Fee)
    ensures p.allPaid <==> forall c :: c in p.classes ==> c.paid
    ensures p.month == Month(p.classes[0].date)
    ensures p.studentName == p.classes[0].studentName && p.studentEmail == p.classes[0].studentEmail
  {
    RowIsItsGroup(classes, p);
    if !p.allPaid {
      var i :| 0 <= i < |p.classes| && !p.classes[i].paid;
      assert p.classes[i] in p.classes;
    }
  }

  /** Each row describes exactly the lessons with its key: they are its classes, in store
      order, none is missing and the group is never empty; the count, fee total and paid
      flag are those of the group, and the name, email and month those of its first lesson. */
  lemma MonthlyPaymentsRows(classes: seq<MusicClass>)
    ensures forall p :: p in MonthlyPayments(classes) ==>
      && p.classes != []
      && p.classes == Group(classes, PaymentKey(p))
      && (forall c :: c in p.classes <==> c in classes && GroupKey(c) == PaymentKey(p))
      && p.classCount == |p.classes|
      && p.totalFee == SumBy(p.classes, Fee)
      && (p.allPaid <==> forall c :: c in p.classes ==> c.paid)
      && p.month == Month(p.classes[0].date)
      && p.studentName == p.classes[0].studentName
      && p.studentEmail == p.classes[0].studentEmail
  {
    forall p | p in MonthlyPayments(classes)
      ensures p.classes != [] && p.classes == Group(classes, PaymentKey(p))
      ensures forall c :: c in p.classes <==> c in classes && GroupKey(c) == PaymentKey(p)
      ensures p.classCount == |p.classes| && p.totalFee == SumBy(p.classes, Fee)
      ensures p.allPaid <==> forall c :: c in p.classes ==> c.paid
      ensures p.month == Month(p.classes[0].date)
      ensures p.studentName == p.classes[0].studentName && p.studentEmail == p.classes[0].studentEmail
    {
      RowFacts(classes, p);
    }
  }

  /** The row holding a given lesson. */
  lemma RowOf(classes: seq<MusicClass>, c: MusicClass) returns (p: MonthlyPayment)
    requires c in classes
    ensures p in MonthlyPayments(classes) && c in p.classes && PaymentKey(p) == GroupKey(c)
  {
    var ks := KeysInOrder(classes, GroupKey);
    KeysHaveGroups(classes);
    RowsPermuted(classes);
    p := SummaryOf(ks, classes, c);
    assert p in multiset(Summaries(ks, classes));
  }

  /** Among the projected groups of `ks`, the one whose key is the lesson's holds it. */
  lemma SummaryOf(ks: seq<string>, classes: seq<MusicClass>, c: MusicClass) returns (p: MonthlyPayment)
    requires forall k :: k in ks ==> Group(classes, k) != []
    requires c in classes && GroupKey(c) in ks
    ensures p in Summaries(ks, classes) && c in p.classes && PaymentKey(p) == GroupKey(c)
  {
    SummariesAt(ks, classes);
    var i :| 0 <= i < |ks| && ks[i] == GroupKey(c);
    p := Summaries(ks, classes)[i];
    assert c in p.classes;
    PaymentKeyOfGroup(classes, ks[i]);
  }


  /** Every lesson appears in a row. */
  lemma MonthlyPaymentsCover(classes: seq<MusicClass>)
    ensures forall c :: c in classes ==> exists p :: p in MonthlyPayments(classes) && c in p.classes
  {
    forall c | c in classes ensures exists p :: p in MonthlyPayments(classes) && c in p.classes {
      var p := RowOf(classes, c);
    }
  }

  /** No two rows share a key, so (with `MonthlyPaymentsRows`) no lesson is in two rows. */
  lemma MonthlyPaymentsDistinct(classes: seq<MusicClass>)
    ensures forall i, j :: 0 <= i < j < |MonthlyPayments(classes)| ==>
      PaymentKey(MonthlyPayments(classes)[i]) != PaymentKey(MonthlyPayments(classes)[j])
  {
    var ks := KeysInOrder(classes, GroupKey);
    var ps := MonthlyPayments(classes);
    KeysHaveGroups(classes);
    RowsPermuted(classes);
    SummariesAt(ks, classes);
    var rows := Summaries(ks, classes);
    forall i, j | 0 <= i < j < |rows| ensures rows[i] != rows[j] {
      PaymentKeyOfGroup(classes, ks[i]);
      PaymentKeyOfGroup(classes, ks[j]);
    }
    NoDuplicatesPermutation(rows, ps);
    forall i, j | 0 <= i < j < |ps| ensures PaymentKey(ps[i]) != PaymentKey(ps[j]) {
      RowIsItsGroup(classes, ps[i]);
      RowIsItsGroup(classes, ps[j]);
    }
  }

  /** The rows are ordered by month, latest first, and the view has one row per distinct key. */
  lemma MonthlyPaymentsSorted(classes: seq<MusicClass>)
    ensures SortedDesc(MonthlyPayments(classes), PaymentMonth)
    ensures |MonthlyPayments(classes)| == |KeysInOrder(classes, GroupKey)|
  {
    var ks := KeysInOrder(classes, GroupKey);
    KeysHaveGroups(classes);
    SummariesAt(ks, classes);
    var rows := Summaries(ks, classes);
    SortDescSorted(rows, PaymentMonth);
    assert |multiset(MonthlyPayments(classes))| == |multiset(rows)|;
  }

  /** Summing a per-row quantity over the rows sums it over the groups. */
  lemma {:induction false} SummariesTotals(ks: seq<string>, classes: seq<MusicClass>)
    requires forall k :: k in ks ==> Group(classes, k) != []
    ensures SumBy(Summaries(ks, classes), TotalFee) == SumOverKeys(ks, classes, GroupKey, Fee)
    ensures SumBy(Summaries(ks, classes), ClassCount) == SumOverKeys(ks, classes, GroupKey, One)
  {
    if ks != [] {
      SummariesTotals(ks[1..], classes);
      SumByOnes(Group(classes, ks[0]), One);
    }
  }

  /** The class counts of the rows add up to the number of lessons. */
  lemma MonthlyPaymentsCount(classes: seq<MusicClass>)
    ensures SumBy(MonthlyPayments(classes), ClassCount) == |classes|
  {
    var ks := KeysInOrder(classes, GroupKey);
    KeysHaveGroups(classes);
    RowsPermuted(classes);
    SummariesTotals(ks, classes);
    GroupsPartitionSum(ks, classes, GroupKey, One);
    SumByOnes(classes, One);
    SumByPermutation(MonthlyPayments(classes), Summaries(ks, classes), ClassCount);
  }

  /** The fee totals of the rows add up to the fees of all lessons. */
  lemma MonthlyPaymentsFee(classes: seq<MusicClass>)
    ensures SumBy(MonthlyPayments(classes), TotalFee) == SumBy(classes, Fee)
  {
    var ks := KeysInOrder(classes, GroupKey);
    KeysHaveGroups(classes);
    RowsPermuted(classes);
    SummariesTotals(ks, classes);
    GroupsPartitionSum(ks, classes, GroupKey, Fee);
    SumByPermutation(MonthlyPayments(classes), Summaries(ks, classes), TotalFee);
  }

  predicate RowPaid(p: MonthlyPayment) { p.allPaid }
  predicate RowDue(p: MonthlyPayment) { !p.allPaid }

  /** `totalDue`: the fee totals of the rows not fully paid. */
  function TotalDue(ps: seq<MonthlyPayment>): int {
    SumBy(Filter(ps, RowDue), TotalFee)
  }

  /** `totalCollected`: the fee totals of the fully paid rows. */
  function TotalCollected(ps: seq<MonthlyPayment>): int {
    SumBy(Filter(ps, RowPaid), TotalFee)
  }

  /** Outstanding and collected together are the fees of all lessons. */
  lemma DueAndCollected(classes: seq<MusicClass>)
    ensures TotalDue(MonthlyPayments(classes)) + TotalCollected(MonthlyPayments(classes)) == SumBy(classes, Fee)
  {
    SumByFilterSplit(MonthlyPayments(classes), RowDue, RowPaid, TotalFee);
    MonthlyPaymentsFee(classes);
  }

  /** "Total Students": `new Set(classes.map(c => c.studentEmail || c.studentId)).size`,
      counted as the distinct keys in order of appearance. */
  function TotalStudents(classes: seq<MusicClass>): (n: nat)
    ensures n == |set c | c in classes :: StudentKey(c)|
    ensures n <= |classes|
  {
    var ks := KeysInOrder(classes, StudentKey);
    DistinctCount(ks);
    assert (set k | k in ks) == (set c | c in classes :: StudentKey(c));
    |ks|
  }

  // ---- The month toggle ----

  /** The filter of `handleToggleMonthPayment`: `studentEmail` as the lesson's email or as its
      student id, and a date starting with `month`. An absent `studentEmail` matches every
      lesson without an email, as `===` on two `undefined` does. */
  predicate Selected(c: MusicClass, studentEmail: Option<string>, month: string) {
    (c.studentEmail == studentEmail || Some(c.studentId) == studentEmail) && StartsWith(c.date, month)
  }

  function ToggleSelection(classes: seq<MusicClass>, studentEmail: Option<string>, month: string): (r: seq<MusicClass>)
    ensures forall c :: c in r <==> c in classes && Selected(c, studentEmail, month)
  {
    Filter(classes, c => Selected(c, studentEmail, month))
  }

  /** `updateClass(cls.id, { paid: setPaid })` for each selected lesson. */
  function ToggleUpdates(sel: seq<MusicClass>, v: bool): seq<PaidUpdate> {
    seq(|sel|, i requires 0 <= i < |sel| => PaidUpdate(sel[i].id, v))
  }

  /** The requests all carry `v` and name exactly the ids of the lessons passed. */
  lemma ToggleUpdatesIds(sel: seq<MusicClass>, v: bool)
    ensures forall u :: u in ToggleUpdates(sel, v) ==> u.paid == v
    ensures forall id :: id in UpdatedIds(ToggleUpdates(sel, v)) <==> exists c :: c in sel && c.id == id
  {
    var us := ToggleUpdates(sel, v);
    forall id | id in UpdatedIds(us) ensures exists c :: c in sel && c.id == id {
      var u :| u in us && u.id == id;
      var i :| 0 <= i < |us| && us[i] == u;
      assert sel[i] in sel;
    }
    forall c | c in sel ensures c.id in UpdatedIds(us) {
      var i :| 0 <= i < |sel| && sel[i] == c;
      assert us[i] in us;
    }
  }

  /** The store after the toggle as written. */
  function ToggleMonthPayment(store: seq<MusicClass>, studentEmail: Option<string>, month: string, v: bool): seq<MusicClass> {
    ApplyPaidUpdates(store, ToggleUpdates(ToggleSelection(store, studentEmail, month), v))
  }

  /** With unique ids, the toggle sets the flag of exactly the selected lessons and leaves
      every other lesson as it was. */
  lemma ToggleEffect(store: seq<MusicClass>, studentEmail: Option<string>, month: string, v: bool)
    requires UniqueIds(store)
    ensures |ToggleMonthPayment(store, studentEmail, month, v)| == |store|
    ensures forall i :: 0 <= i < |store| ==>
      ToggleMonthPayment(store, studentEmail, month, v)[i]
        == if Selected(store[i], studentEmail, month) then store[i].(paid := v) else store[i]
  {
    var sel := ToggleSelection(store, studentEmail, month);
    var us := ToggleUpdates(sel, v);
    ToggleUpdatesIds(sel, v);
    ApplySameValue(store, us, v);
    forall i | 0 <= i < |store| ensures store[i].id in UpdatedIds(us) <==> Selected(store[i], studentEmail, month) {
      if store[i].id in UpdatedIds(us) {
        var c :| c in sel && c.id == store[i].id;
        var j :| 0 <= j < |store| && store[j] == c;
        assert i == j;
      } else {
        assert store[i] !in sel;
      }
    }
  }

  /** Lessons that differ at most in their flag keep their keys. */
  lemma FlagsOnlyKeepKeys(store: seq<MusicClass>, after: seq<MusicClass>, v: bool)
    requires |after| == |store|
    requires forall i :: 0 <= i < |store| ==> after[i] == store[i] || after[i] == store[i].(paid := v)
    ensures forall i :: 0 <= i < |store| ==> GroupKey(after[i]) == GroupKey(store[i])
  {
    forall i | 0 <= i < |store| ensures GroupKey(after[i]) == GroupKey(store[i]) {
      PaidKeepsKey(store[i], v);
    }
  }

  /** A row of the new view for `k` reports `v` when every lesson with key `k` got `v`. */
  lemma RowSettled(store: seq<MusicClass>, after: seq<MusicClass>, k: string, v: bool, q: MonthlyPayment)
    requires |after| == |store|
    requires forall i :: 0 <= i < |store| ==> GroupKey(after[i]) == GroupKey(store[i])
    requires forall i :: 0 <= i < |store| && GroupKey(store[i]) == k ==> after[i].paid == v
    requires q in MonthlyPayments(after) && PaymentKey(q) == k
    ensures q.allPaid == v
  {
    RowFacts(after, q);
    forall c | c in q.classes ensures c.paid == v {
      assert c in after && GroupKey(c) == k;
      var i :| 0 <= i < |after| && after[i] == c;
      assert GroupKey(store[i]) == k;
    }
    assert q.classes[0] in q.classes;
  }

  /** Shared step of the toggle laws: if every lesson with key `k` got flag `v` and nothing
      else changed but flags, the re-aggregated view has a row for `k` and it reports `v`. */
  lemma GroupSettled(store: seq<MusicClass>, after: seq<MusicClass>, k: string, v: bool)
    requires |after| == |store|
    requires exists i :: 0 <= i < |store| && GroupKey(store[i]) == k
    requires forall i :: 0 <= i < |store| ==> after[i] == store[i] || after[i] == store[i].(paid := v)
    requires forall i :: 0 <= i < |store| && GroupKey(store[i]) == k ==> after[i].paid == v
    ensures exists q :: q in MonthlyPayments(after) && PaymentKey(q) == k
    ensures forall q :: q in MonthlyPayments(after) && PaymentKey(q) == k ==> q.allPaid == v
  {
    FlagsOnlyKeepKeys(store, after, v);
    var i0 :| 0 <= i0 < |store| && GroupKey(store[i0]) == k;
    var q0 := RowOf(after, after[i0]);
    forall q | q in MonthlyPayments(after) && PaymentKey(q) == k ensures q.allPaid == v {
      RowSettled(store, after, k, v, q);
    }
  }

  /** For a row with an email and full dates, the as-written filter picks every lesson of the row. */
  lemma RowSelected(store: seq<MusicClass>, p: MonthlyPayment, c: MusicClass)
    requires p in MonthlyPayments(store)
    requires p.studentEmail.Some? && p.studentEmail.value != ""
    requires forall c :: c in store ==> |c.date| >= 7
    requires c in store && GroupKey(c) == PaymentKey(p)
    ensures Selected(c, p.studentEmail, p.month)
  {
    RowFacts(store, p);
    var first := p.classes[0];
    assert first in store;
    GroupKeyInjective(c, first);
    StartsWithMonth(c.date, p.month);
  }

  /** What the as-written toggle does to the store for such a row: only flags change, and
      every lesson of the row gets `v`. */
  lemma ToggleWritesRow(store: seq<MusicClass>, p: MonthlyPayment, v: bool)
    requires p in MonthlyPayments(store)
    requires p.studentEmail.Some? && p.studentEmail.value != ""
    requires forall c :: c in store ==> |c.date| >= 7
    ensures |ToggleMonthPayment(store, p.studentEmail, p.month, v)| == |store|
    ensures forall i :: 0 <= i < |store| ==>
      || ToggleMonthPayment(store, p.studentEmail, p.month, v)[i] == store[i]
      || ToggleMonthPayment(store, p.studentEmail, p.month, v)[i] == store[i].(paid := v)
    ensures forall i :: 0 <= i < |store| && GroupKey(store[i]) == PaymentKey(p) ==>
      ToggleMonthPayment(store, p.studentEmail, p.month, v)[i].paid == v
  {
    var sel := ToggleSelection(store, p.studentEmail, p.month);
    var us := ToggleUpdates(sel, v);
    ToggleUpdatesIds(sel, v);
    ApplySameValue(store, us, v);
    forall i | 0 <= i < |store| && GroupKey(store[i]) == PaymentKey(p) ensures store[i].id in UpdatedIds(us) {
      RowSelected(store, p, store[i]);
      assert store[i] in sel;
    }
  }

  /** The toggle law for a row with an email: after toggling it to `v`, re-aggregating the
      store shows that student's month with `allPaid == v`. */
  lemma ToggleLaw(store: seq<MusicClass>, p: MonthlyPayment, v: bool)
    requires p in MonthlyPayments(store)
    requires p.studentEmail.Some? && p.studentEmail.value != ""
    requires forall c :: c in store ==> |c.date| >= 7
    ensures exists q ::
      q in MonthlyPayments(ToggleMonthPayment(store, p.studentEmail, p.month, v)) && PaymentKey(q) == PaymentKey(p)
    ensures forall q ::
      q in MonthlyPayments(ToggleMonthPayment(store, p.studentEmail, p.month, v)) && PaymentKey(q) == PaymentKey(p)
      ==> q.allPaid == v
  {
    ToggleWritesRow(store, p, v);
    RowFacts(store, p);
    var first := p.classes[0];
    var i0 :| 0 <= i0 < |store| && store[i0] == first;
    GroupSettled(store, ToggleMonthPayment(store, p.studentEmail, p.month, v), PaymentKey(p), v);
  }

  /** The toggle as written over-selects: two students without an email who have lessons in
      the same month form two rows, and toggling the first row also selects the other
      student's lesson. */
  lemma ToggleOverSelects(c1: MusicClass, c2: MusicClass)
    requires c1.studentEmail.None? && c2.studentEmail.None?
    requires c1.studentId != c2.studentId
    requires |c1.date| >= 7 && Month(c1.date) == Month(c2.date)
    ensures exists p ::
      p in MonthlyPayments([c1, c2]) && c1 in p.classes && c2 !in p.classes
      && c2 in ToggleSelection([c1, c2], p.studentEmail, p.month)
  {
    var store := [c1, c2];
    assert c1 in store;
    var p := RowOf(store, c1);
    RowFacts(store, p);
    assert GroupKey(c1) != GroupKey(c2) by {
      GroupKeyInjective(c1, c2);
    }
    assert p.classes[0] in p.classes;
    StartsWithMonth(c2.date, p.month);
  }

  /** The evidently intended toggle: update the lessons the row was built from. */
  function ToggleGroup(store: seq<MusicClass>, p: MonthlyPayment, v: bool): seq<MusicClass> {
    ApplyPaidUpdates(store, ToggleUpdates(p.classes, v))
  }

  /** With unique ids, toggling a row sets the flag of exactly that row's lessons, leaves
      every other lesson (so every other row's lessons) as it was, and the re-aggregated view
      reports the row as `v`; no email and no date shape are needed. */
  lemma ToggleGroupLaw(store: seq<MusicClass>, p: MonthlyPayment, v: bool)
    requires UniqueIds(store)
    requires p in MonthlyPayments(store)
    ensures |ToggleGroup(store, p, v)| == |store|
    ensures forall i :: 0 <= i < |store| ==>
      ToggleGroup(store, p, v)[i] == if GroupKey(store[i]) == PaymentKey(p) then store[i].(paid := v) else store[i]
    ensures exists q :: q in MonthlyPayments(ToggleGroup(store, p, v)) && PaymentKey(q) == PaymentKey(p)
    ensures forall q :: q in MonthlyPayments(ToggleGroup(store, p, v)) && PaymentKey(q) == PaymentKey(p) ==> q.allPaid == v
  {
    var k := PaymentKey(p);
    RowFacts(store, p);
    var us := ToggleUpdates(p.classes, v);
    var after := ApplyPaidUpdates(store, us);
    ToggleUpdatesIds(p.classes, v);
    ApplySameValue(store, us, v);
    forall i | 0 <= i < |store| ensures store[i].id in UpdatedIds(us) <==> GroupKey(store[i]) == k {
      if store[i].id in UpdatedIds(us) {
        var c :| c in p.classes && c.id == store[i].id;
        var j :| 0 <= j < |store| && store[j] == c;
        assert i == j;
      } else {
        assert store[i] !in p.classes;
      }
    }
    assert p.classes[0] in store;
    GroupSettled(store, after, k, v);
  }
}
