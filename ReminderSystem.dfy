/**
 * The notification panel: the unread badge count and the four filter tabs
 * (All, Unread, Payment, Class) over the list of reminders.
 */
module ReminderSystem {
  import opened Wrappers
  import opened Seqs

  datatype ReminderType = PaymentReminder | ClassReminder | AlertReminder

  /** A reminder; `timestamp` is the creation instant in milliseconds. */
  datatype Reminder = Reminder(
    id: string,
    kind: ReminderType,
    title: string,
    message: string,
    dueDate: Option<string>,
    read: bool,
    timestamp: int)

  /** The selected tab. */
  datatype ReminderFilter = All | Unread | Payment | Class

  predicate IsUnread(r: Reminder) {
    !r.read
  }

  predicate IsRead(r: Reminder) {
    r.read
  }

  /** `unreadCount`; the badge on the bell is shown exactly when it is positive, that is,
      when some reminder is unread. */
  function UnreadCount(rs: seq<Reminder>): (n: nat)
    ensures n <= |rs|
    ensures n > 0 <==> exists r :: r in rs && !r.read
  {
    var unread := Filter(rs, IsUnread);
    assert unread != [] ==> IsUnread(unread[0]) && unread[0] in rs;
    |unread|
  }

  /** Whether a reminder shows under a tab. */
  predicate Shows(f: ReminderFilter, r: Reminder) {
    match f
    case Unread => !r.read
    case Payment => r.kind == PaymentReminder
    case Class => r.kind == ClassReminder
    case All => true
  }

  /** `filteredReminders`: the reminders the selected tab shows, in list order. */
  function FilteredReminders(rs: seq<Reminder>, f: ReminderFilter): (r: seq<Reminder>)
    ensures |r| <= |rs|
    ensures forall x :: x in r <==> x in rs && Shows(f, x)
  {
    Filter(rs, (x: Reminder) => Shows(f, x))
  }

  /** Every tab keeps reminders in list order and each shown reminder as often as the list
      has it; the others do not appear. */
  lemma FilteredInOrder(rs: seq<Reminder>, f: ReminderFilter)
    ensures IsSubsequence(FilteredReminders(rs, f), rs)
    ensures forall x :: multiset(FilteredReminders(rs, f))[x] == if Shows(f, x) then multiset(rs)[x] else 0
  {
    FilterExact(rs, (x: Reminder) => Shows(f, x));
  }

  /** The All tab shows the list unchanged. */
  lemma AllShowsEverything(rs: seq<Reminder>)
    ensures FilteredReminders(rs, All) == rs
  {
    FilterAll(rs, (x: Reminder) => Shows(All, x));
  }

  /** The Unread tab lists as many reminders as the badge counts, and together with the read
      ones they make up the whole list. */
  lemma UnreadTabMatchesBadge(rs: seq<Reminder>)
    ensures |FilteredReminders(rs, Unread)| == UnreadCount(rs)
    ensures UnreadCount(rs) + |Filter(rs, IsRead)| == |rs|
  {
    FilterSame(rs, (x: Reminder) => Shows(Unread, x), IsUnread);
    FilterSplitLength(rs, IsUnread, IsRead);
  }

  /** The Payment and Class tabs never share a reminder, so together they list at most the
      whole list. */
  lemma TypeTabsDisjoint(rs: seq<Reminder>)
    ensures forall x :: x in FilteredReminders(rs, Payment) ==> x !in FilteredReminders(rs, Class)
    ensures |FilteredReminders(rs, Payment)| + |FilteredReminders(rs, Class)| <= |rs|
  {
    var notPayment := (x: Reminder) => !Shows(Payment, x);
    FilterSplitLength(rs, (x: Reminder) => Shows(Payment, x), notPayment);
    FilterNarrower(rs, (x: Reminder) => Shows(Class, x), notPayment);
  }
}
