/**
 * The stored records: a lesson ("class") document, a roster entry, and the
 * paid-flag updates the dashboards send to the store, with their effect.
 */
module Lessons {
  import opened Wrappers
  import opened Seqs
  import opened CivilDate

  /** A stored lesson. `studentEmail`, `monthlyPackage` and `monthYear` are optional;
      the creation timestamp is not modelled. */
  datatype MusicClass = MusicClass(
    id: string,
    teacherId: string,
    studentId: string,
    studentName: string,
    studentEmail: Option<string>,
    date: string,
    time: string,
    instrument: string,
    feePerClass: int,
    paid: bool,
    completed: bool,
    monthlyPackage: Option<nat>,
    monthYear: Option<string>)

  /** A lesson-creation request: the stored fields except the id the store assigns. */
  datatype ClassData = ClassData(
    teacherId: string,
    studentId: string,
    studentName: string,
    studentEmail: Option<string>,
    date: string,
    time: string,
    instrument: string,
    feePerClass: int,
    paid: bool,
    completed: bool,
    monthlyPackage: Option<nat>,
    monthYear: Option<string>)

  /** A roster entry. */
  datatype Student = Student(
    id: string,
    name: string,
    email: string,
    phone: Option<string>,
    instrument: string,
    feePerClass: int,
    monthlyPackage: nat,
    teacherId: string)

  /** `s.substring(0, 7)`: the `YYYY-MM` month of an ISO date, or the whole text when shorter. */
  function Month(s: string): (r: string)
    ensures |r| <= 7 && |r| <= |s| && r == s[..|r|]
    ensures |s| >= 7 ==> |r| == 7
  {
    if |s| >= 7 then s[..7] else s
  }

  /** `s.startsWith(prefix)`. */
  predicate StartsWith(s: string, prefix: string) {
    |prefix| <= |s| && s[..|prefix|] == prefix
  }

  /** For a seven-character month key, "the date starts with it" and "the date's month is it" agree. */
  lemma StartsWithMonth(date: string, month: string)
    requires |month| == 7
    ensures StartsWith(date, month) <==> Month(date) == month
  {
  }

  /** A date always starts with its own month. */
  lemma StartsWithOwnMonth(date: string)
    ensures StartsWith(date, Month(date))
  {
  }

  /** The month of a formatted date is its month key. */
  lemma MonthOfIsoDate(d: Date)
    requires InIsoRange(d)
    ensures Month(FormatIsoDate(d)) == FormatIsoMonth(d.year, d.month)
  {
    FormatIsoDateMonth(d);
  }

  /** `studentEmail || studentId`: the email unless it is missing or empty. */
  function StudentKey(c: MusicClass): (k: string)
    ensures c.studentEmail.Some? && c.studentEmail.value != "" ==> k == c.studentEmail.value
    ensures (c.studentEmail.None? || c.studentEmail == Some("")) ==> k == c.studentId
  {
    if c.studentEmail.Some? && c.studentEmail.value != "" then c.studentEmail.value else c.studentId
  }

  function Fee(c: MusicClass): int { c.feePerClass }

  /** `updateClass(id, { paid })`. */
  datatype PaidUpdate = PaidUpdate(id: string, paid: bool)

  /** Store ids are unique. */
  predicate UniqueIds(store: seq<MusicClass>) {
    forall i, j :: 0 <= i < j < |store| ==> store[i].id != store[j].id
  }

  function UpdatedIds(us: seq<PaidUpdate>): set<string> {
    set u | u in us :: u.id
  }

  /** What the store does with one update: the document with that id gets the new flag. */
  function SetPaid(store: seq<MusicClass>, u: PaidUpdate): (r: seq<MusicClass>)
    ensures |r| == |store|
    ensures forall i :: 0 <= i < |store| ==>
      r[i] == if store[i].id == u.id then store[i].(paid := u.paid) else store[i]
  {
    seq(|store|, i requires 0 <= i < |store| => if store[i].id == u.id then store[i].(paid := u.paid) else store[i])
  }

  /** The updates applied one after another. */
  function ApplyPaidUpdates(store: seq<MusicClass>, us: seq<PaidUpdate>): seq<MusicClass>
    decreases |us|
  {
    if us == [] then store else ApplyPaidUpdates(SetPaid(store, us[0]), us[1..])
  }

  /** A batch that sets one value: every document named in it gets that value, every other
      document is left as it was, whatever the order of the requests. */
  lemma {:induction false} ApplySameValue(store: seq<MusicClass>, us: seq<PaidUpdate>, v: bool)
    requires forall u :: u in us ==> u.paid == v
    decreases |us|
    ensures var r := ApplyPaidUpdates(store, us);
      |r| == |store| &&
      forall i :: 0 <= i < |store| ==>
        r[i] == if store[i].id in UpdatedIds(us) then store[i].(paid := v) else store[i]
  {
    if us != [] {
      ApplySameValue(SetPaid(store, us[0]), us[1..], v);
      assert UpdatedIds(us) == {us[0].id} + UpdatedIds(us[1..]);
    }
  }

  /** A lesson-record invariant: a `monthYear` tag, when present, is the date's month. */
  predicate MonthYearAgrees(c: ClassData) {
    c.monthYear.Some? ==> c.monthYear.value == Month(c.date)
  }
}
