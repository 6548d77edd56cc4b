# Music class manager — a verified model of the lesson and payment logic

The music class manager is a web app for music teachers and their students. Teachers
schedule lessons one at a time or as a monthly package and mark lessons paid. They see
per-student, per-month payment rows, a calendar and a reminder panel. Students see their
own lessons, a monthly breakdown and the status of the current month.

This project models the computations behind those screens as Dafny values, functions and
methods, and proves what each screen promises about them:

- `Wrappers`: `Option` and `Result`.
- `Seqs`: order-preserving filters, sums, distinct keys in order of first appearance,
  grouping by key, and the stable descending sort by a month key.
- `CivilDate`: timezone-free proleptic Gregorian dates.
  - Date arithmetic: month lengths, the day after, the weekday (0 = Sunday) and the end of
    a month.
  - Strings: the `YYYY-MM-DD` form, its parser, and round trips between them.
- `Lessons`: the stored lesson record and the lesson-creation request.
  - String helpers: the `substring(0, 7)` month key, `startsWith`, and the
    `studentEmail || studentId` key.
  - Writes: the store's `updateClass(id, { paid })`.
- `TeacherDashboard`: the teacher's dashboard.
  - The store-to-view mapping with its `|| 500` fee default.
  - Single-lesson scheduling with its `monthYear` tag.
  - Monthly bulk scheduling: a guard chain, then a day-by-day loop to the end of the start
    date's month, stopped by the package size.
  - The paid toggle, the instrument filter, the instrument list and paid revenue.
- `MonthlyPaymentTracking`: the teacher's rows, one per student and month.
  - Grouping by `studentEmail || studentId` and month, then projection and sorting by
    month, latest first.
  - The outstanding, collected and student-count figures.
  - The whole-month toggle.
- `StudentDashboard`: the student's view.
  - Counts and totals.
  - Lessons grouped by month, projected and sorted.
  - The status card for the current month.
- `PaymentTracking`: the older per-student summary, built through a `Map` where the last
  write wins, and its status lists.
- `CalendarView`: the shown month and its navigation, the grid of leading blanks and
  days, the key of a cell and the lessons a cell lists.
- `ReminderSystem`: the unread badge and the four filter tabs.

The clock, the Firestore store and the browser are parameters or are left out (see below).

Mondays and Wednesdays from 2025-10-01 with a package of 20 make 9 lessons. The 29th is a
Wednesday, and the loop stops only at the end of the month or when the package is full
(`TeacherDashboard.October2025Example`).

A start date that `new Date` cannot read is not rejected. `new Date` gives an Invalid Date,
the loop condition is false at once, and the handler reports success with no lessons.
`TeacherDashboard.BulkSchedule` returns `Success([])` in that case.

## Model

| member | source | states |
|---|---|---|
| CivilDate.DaysInMonth | components/calendar-view.tsx:27-29 | A month has 28 to 31 days. It has 29 exactly for February of a leap year, 28 exactly for February otherwise, and 31 exactly for the seven long months. |
| CivilDate.MonthLengthByOrdinal | components/calendar-view.tsx:27-29 | Day 0 of the next month, as `new Date(y, m + 1, 0)` reads it, is the last day of month `m`: the first of the next month lies `DaysInMonth` days after the first of this one. |
| CivilDate.NextDayOrdinal | components/teacher-dashboard.tsx:228 | `setDate(getDate() + 1)` moves to the calendar day whose day count is one more, across month and year ends. |
| CivilDate.NextDayWeekday | components/teacher-dashboard.tsx:206-228 | The weekday of the next day is the weekday after this day's, cyclically. |
| CivilDate.WeekdayWithinMonth | components/calendar-view.tsx:31-33 | Within a month, the weekday moves by the number of days between two dates, modulo 7. |
| CivilDate.EndOfMonth | components/teacher-dashboard.tsx:203 | The end of a date's month is its last day: a valid date in the same year and month, on day `DaysInMonth`, not before the date, with no valid day after it in that month. |
| CivilDate.ParseFormat | components/teacher-dashboard.tsx:196-207 | Formatting a date as `YYYY-MM-DD` and parsing it back gives the same date. |
| CivilDate.FormatParse | components/teacher-dashboard.tsx:196-207 | A string that parses as a date is exactly the formatted form of that date. |
| CivilDate.FormatIsoDateMonth | components/teacher-dashboard.tsx:197 | The first seven characters of a formatted date are its `YYYY-MM` month key. |
| Lessons.Month | components/monthly-payment-tracking.tsx:15 | `substring(0, 7)` is a prefix of at most seven characters, and exactly seven when the text is that long. |
| Lessons.StartsWithMonth | components/monthly-payment-tracking.tsx:43 | For a seven-character month key, "the date starts with the key" holds exactly when "the date's month is the key". |
| Lessons.MonthOfIsoDate | components/teacher-dashboard.tsx:197-220 | The month key of a formatted date is the formatted year and month. |
| Lessons.StudentKey | components/monthly-payment-tracking.tsx:15 | The key is the email when it is present and non-empty, and the student id otherwise. |
| Lessons.SetPaid | lib/firebase/database.ts:184-191 | An update changes the paid flag of exactly the documents with its id; all other fields and documents stay the same. |
| Lessons.ApplySameValue | components/monthly-payment-tracking.tsx:46-48 | A batch of updates that all carry one value gives every named document that value and leaves all others unchanged. |
| TeacherDashboard.FeeOrDefault | components/teacher-dashboard.tsx:96 | A missing or zero fee reads as 500 and any other fee as itself, so a listed fee is never zero. |
| TeacherDashboard.ToClasses | components/teacher-dashboard.tsx:89-101 | The view has one lesson per stored lesson, in store order, each mapped field by field. |
| TeacherDashboard.ScheduleClass | components/teacher-dashboard.tsx:119-137 | No request exactly when the user is missing or the student, date, time or instrument is empty. Otherwise the request carries the form's data, unpaid and not completed, with the email only when non-empty and a `monthYear` equal to the date's month. |
| TeacherDashboard.FindStudent | components/teacher-dashboard.tsx:186 | The roster entry with the id, which is in the roster, or nothing exactly when no entry has that id. |
| TeacherDashboard.BulkSchedule | components/teacher-dashboard.tsx:154-250 | The guards fire in source order with their own error, and some guard fails exactly when any check fails. An unparsable start date gives success with no requests. Otherwise there is one request per day of `BulkDays`: the days from the start date to the end of its month with a selected weekday, cut to the package size, all inside that month. |
| TeacherDashboard.ScheduleMonth | components/teacher-dashboard.tsx:196-229 | The loop's requests are the records, in order, of the days from the start date to the month's end with a selected weekday, cut to the package size. Those days all lie in the start date's month. |
| TeacherDashboard.VisitDay | components/teacher-dashboard.tsx:206-227 | A day with a selected weekday appends its request and increments the count; any other day changes neither. |
| TeacherDashboard.BookStep | components/teacher-dashboard.tsx:205-228 | One loop step keeps the booked days inside the month and the requests equal to the records of those days, and leaves the remaining walk unchanged. |
| TeacherDashboard.WalkedIsBooked | components/teacher-dashboard.tsx:205-229 | The loop's walk stops when the month ends or the package is full. Continued from any day, it books the days booked so far followed by the matching days ahead, cut to the package size. |
| TeacherDashboard.MatchingDaysExact | components/teacher-dashboard.tsx:203-206 | The candidate days are exactly the days from the start to the month's end whose weekday is selected, in increasing order. |
| TeacherDashboard.BulkRecordsSpec | components/teacher-dashboard.tsx:197-222 | There are min(package, candidates) requests, one per candidate day in order. Each parses back to its date, carries the start date's month both as its date's month and as its tag, has the student's id, name, email, instrument and fee, the teacher's id, the form's time and package, a `monthYear` tag equal to the start date's month, and is unpaid and not completed. |
| TeacherDashboard.BulkCandidatesInMonth | components/teacher-dashboard.tsx:203-206 | Every candidate day is a valid date from the start date to the end of its month, falls on a selected weekday, and comes after the previous candidate. |
| TeacherDashboard.October2025Example | components/teacher-dashboard.tsx:196-229 | Mondays and Wednesdays from 2025-10-01 are days 1, 6, 8, 13, 15, 20, 22, 27 and 29; a package of 8 keeps the first eight, and a package of 20 makes nine lessons. |
| TeacherDashboard.WeekdayOctober2025 | components/teacher-dashboard.tsx:206 | October 2025 has 31 days and its day `d` falls on weekday `(d + 2) mod 7`, so the 1st is a Wednesday. |
| TeacherDashboard.TogglePaidRequest | components/teacher-dashboard.tsx:252-262 | There is no request exactly when no listed lesson has the id. Otherwise the request names the id and carries the negated flag of the first lesson with it. |
| TeacherDashboard.TogglePaidFlipsOne | components/teacher-dashboard.tsx:252-262 | With unique ids, the toggle flips the flag of exactly the stored lesson with the id and changes nothing else; an unknown id changes nothing. |
| TeacherDashboard.SetPaidUnique | components/teacher-dashboard.tsx:257 | With unique ids, an update of one lesson's id replaces just that lesson's flag. |
| TeacherDashboard.FilteredClasses | components/teacher-dashboard.tsx:275-276 | "all" keeps the list unchanged; any other value keeps exactly the lessons of that instrument, in list order, each as often as in the list. |
| TeacherDashboard.Instruments | components/teacher-dashboard.tsx:278 | Each instrument of some lesson appears, none appears twice, and they come in order of first appearance: an earlier instrument has a lesson before any lesson of a later one. |
| TeacherDashboard.TotalRevenueByLesson | components/teacher-dashboard.tsx:280 | Revenue is the sum over all lessons of the fee when paid and 0 otherwise. |
| TeacherDashboard.TotalRevenueSplit | components/teacher-dashboard.tsx:280 | Revenue plus the fees of unpaid lessons is the fees of all lessons. |
| TeacherDashboard.TogglePaidRevenue | components/teacher-dashboard.tsx:252-262 | Toggling one lesson moves revenue by exactly its defaulted fee: up when it becomes paid, down when it becomes unpaid. |
| MonthlyPaymentTracking.GroupKeyInjective | components/monthly-payment-tracking.tsx:15 | For full dates, two lessons share a dictionary key exactly when they share the student key and the month. |
| MonthlyPaymentTracking.PaidKeepsKey | components/monthly-payment-tracking.tsx:15 | Changing only the paid flag keeps a lesson in its group. |
| MonthlyPaymentTracking.BuildMonthlyPayments | components/monthly-payment-tracking.tsx:14-37 | The `reduce` into the dictionary, the projection and the sort compute exactly the grouped, projected, month-sorted rows. |
| MonthlyPaymentTracking.RowsPermuted | components/monthly-payment-tracking.tsx:28-37 | The sorted rows are a permutation of the dictionary's projected entries. |
| MonthlyPaymentTracking.RowIsItsGroup | components/monthly-payment-tracking.tsx:14-37 | Every row is the projection of the non-empty group of its key. |
| MonthlyPaymentTracking.MonthlyPaymentsRows | components/monthly-payment-tracking.tsx:14-37 | Each row's lessons are exactly the stored lessons with its key, in store order. Its count and total are their number and fee sum, and it is all-paid exactly when each of them is paid. Its name, email and month come from its first lesson. |
| MonthlyPaymentTracking.RowFacts | components/monthly-payment-tracking.tsx:14-37 | For one given row: its lessons are exactly the stored lessons with its key, its count and total are their number and fee sum, it is all-paid exactly when each is paid, and its name, email and month come from its first lesson. |
| MonthlyPaymentTracking.RowOf | components/monthly-payment-tracking.tsx:14-26 | Each stored lesson is in a row whose key is its own. |
| MonthlyPaymentTracking.MonthlyPaymentsCover | components/monthly-payment-tracking.tsx:14-26 | Every stored lesson appears in some row. |
| MonthlyPaymentTracking.MonthlyPaymentsDistinct | components/monthly-payment-tracking.tsx:14-26 | No two rows have the same key. |
| MonthlyPaymentTracking.MonthlyPaymentsSorted | components/monthly-payment-tracking.tsx:37 | Rows are ordered by month, latest first, and there is one row per distinct key. |
| MonthlyPaymentTracking.MonthlyPaymentsCount | components/monthly-payment-tracking.tsx:35 | The rows' class counts add up to the number of lessons. |
| MonthlyPaymentTracking.MonthlyPaymentsFee | components/monthly-payment-tracking.tsx:29 | The rows' fee totals add up to the fees of all lessons. |
| MonthlyPaymentTracking.DueAndCollected | components/monthly-payment-tracking.tsx:56-62 | Outstanding plus collected is the fees of all lessons. |
| MonthlyPaymentTracking.TotalStudents | components/monthly-payment-tracking.tsx:100 | The count is the number of distinct student keys, never more than the number of lessons. |
| MonthlyPaymentTracking.ToggleSelection | components/monthly-payment-tracking.tsx:41-44 | The selected lessons are exactly those whose email or id equals the given value and whose date starts with the month. |
| MonthlyPaymentTracking.ToggleUpdatesIds | components/monthly-payment-tracking.tsx:46-48 | Every update carries the new value, and the updated ids are exactly those of the selected lessons. |
| MonthlyPaymentTracking.ToggleEffect | components/monthly-payment-tracking.tsx:39-53 | With unique ids, the toggle as written sets the flag of exactly the selected lessons and leaves every other lesson as it was. |
| MonthlyPaymentTracking.ToggleWritesRow | components/monthly-payment-tracking.tsx:39-53 | For a row with an email and full dates, the toggle as written changes only flags, and gives every lesson of the row the new value. |
| MonthlyPaymentTracking.ToggleLaw | components/monthly-payment-tracking.tsx:152 | For a row with an email and full dates, after the toggle the view has a row with the same key, and that row reports the new value. |
| MonthlyPaymentTracking.ToggleOverSelects | components/monthly-payment-tracking.tsx:41-44 | Two email-less students with lessons in the same month have separate rows, yet the toggle of the first row selects the other student's lesson too. |
| MonthlyPaymentTracking.ToggleGroupLaw | components/monthly-payment-tracking.tsx:152 | With unique ids, the corrected toggle sets the flag of exactly the row's lessons and leaves all others alone; re-aggregating gives a row with the same key that reports the new value. |
| StudentDashboard.CompletedClasses | components/student-dashboard.tsx:75 | The completed count never exceeds the number of lessons. |
| StudentDashboard.UpcomingCount | components/student-dashboard.tsx:75-76 | Total minus completed is never negative and counts the lessons not completed. |
| StudentDashboard.PaidPlusDue | components/student-dashboard.tsx:77-78 | Paid plus due is the fees of all lessons. |
| StudentDashboard.BuildMonthlyPayments | components/student-dashboard.tsx:81-95 | The `reduce` into the month dictionary, the projection and the sort compute exactly the month entries. |
| StudentDashboard.EntriesPermuted | components/student-dashboard.tsx:91-95 | The sorted entries are a permutation of the dictionary's projected entries. |
| StudentDashboard.EntryIsItsMonth | components/student-dashboard.tsx:81-95 | Every entry is the projection of its month's non-empty group of lessons. |
| StudentDashboard.MonthlyEntries | components/student-dashboard.tsx:81-95 | Each entry's month has at least one lesson. Its group is exactly the lessons of that month, its total is their fee sum, its count is their number, and it is paid exactly when each of them is paid. |
| StudentDashboard.MonthlyCover | components/student-dashboard.tsx:81-88 | Every lesson's month has an entry. |
| StudentDashboard.MonthlySorted | components/student-dashboard.tsx:95 | Entries are ordered by month, latest first, and no month appears twice. |
| StudentDashboard.MonthlyCount | components/student-dashboard.tsx:94 | The entries' counts add up to the number of lessons. |
| StudentDashboard.MonthlyTotal | components/student-dashboard.tsx:92 | The entries' totals add up to the fees of all lessons. |
| StudentDashboard.CurrentMonthClasses | components/student-dashboard.tsx:99 | The current month's lessons are exactly those whose date starts with the month key, in input order, each as often as in the input. |
| StudentDashboard.CurrentPaymentStatus | components/student-dashboard.tsx:97-115 | The card's due date is the current month and its amount is the fees of that month's lessons. It shows paid exactly when the month has lessons and each of them is paid. |
| StudentDashboard.StatusMatchesEntry | components/student-dashboard.tsx:91-103 | With a month entry, the card's amount and paid flag equal the entry's. Without one, the amount is 0 and the card shows unpaid. |
| PaymentTracking.SummaryCounts | components/payment-tracking.tsx:42-51 | A summary's paid lessons never outnumber its lessons. The unpaid amount is 50 per unpaid lesson, the status is pending exactly when some lesson of the name is unpaid, and it is never overdue. |
| PaymentTracking.LastIndex | components/payment-tracking.tsx:38-55 | The index of the last lesson with the name, or -1 when there is none. |
| PaymentTracking.MapOfShape | components/payment-tracking.tsx:38-55 | The `Map` built from the lessons has the distinct names as its keys, in order of first appearance; under each name it holds the summary built from the last lesson with it. |
| PaymentTracking.StudentPaymentsShape | components/payment-tracking.tsx:38-55 | There is one summary per distinct name, in order of first appearance, and each is built from the last lesson with that name. |
| PaymentTracking.OnePerStudent | components/payment-tracking.tsx:38-55 | No two summaries share a name. Every name that occurs has a summary, and every summary's name occurs. |
| PaymentTracking.LastWriteWins | components/payment-tracking.tsx:39-46 | A summary's id, instrument and last date come from the last lesson with its name, and no later lesson has that name. |
| PaymentTracking.PaymentRows | components/payment-tracking.tsx:47-51 | Each summary counts the lessons of its name and carries the given due date. It is pending exactly when one of them is unpaid, never overdue, and owes 50 per unpaid lesson. |
| PaymentTracking.StatusLists | components/payment-tracking.tsx:57-59 | The overdue list is always empty, and every summary is in exactly one of the pending and paid lists, so their lengths add up to the number of summaries. |
| CalendarView.FromMonthIndex | components/calendar-view.tsx:40-46 | `new Date(year, monthIndex)` with any month index gives the valid month with that count of months. |
| CalendarView.MonthIndexInjective | components/calendar-view.tsx:40-46 | A valid month is determined by its count of months. |
| CalendarView.PreviousMonth | components/calendar-view.tsx:40-42 | One month back, into December of the previous year from January. |
| CalendarView.NextMonth | components/calendar-view.tsx:44-46 | One month on, into January of the next year from December. |
| CalendarView.NavigationInverse | components/calendar-view.tsx:40-46 | Forward then back, and back then forward, return to the shown month. |
| CalendarView.DaysInMonthIsDayZero | components/calendar-view.tsx:27-29 | Day 0 of the next month is the last day of the shown month, and the next month's first is that many days on. |
| CalendarView.FirstDayOfMonth | components/calendar-view.tsx:31-33 | The weekday of the first is between 0 and 6. |
| CalendarView.BuildDays | components/calendar-view.tsx:52-58 | The grid has `firstDay` blanks, then the days 1 to `daysInMonth` in order, and nothing else. |
| CalendarView.CellColumnIsWeekday | components/calendar-view.tsx:52-58 | In the seven-column grid, the cell of day `d` sits in the column of that day's weekday. |
| CalendarView.DateKeyIso | components/calendar-view.tsx:36 | For four-digit years, a cell's key is the stored `YYYY-MM-DD` form of its date and parses back as that date. |
| CalendarView.ClassesForDate | components/calendar-view.tsx:35-38 | A cell's lessons are exactly those stored under its key, in input order, each as often as in the input. |
| CalendarView.DateKeyInjective | components/calendar-view.tsx:36 | Two days of the shown month have the same key exactly when they are the same day. |
| CalendarView.ClassesForDistinctDays | components/calendar-view.tsx:35-38 | No lesson shows on two different days of the shown month. |
| CalendarView.VisibleClasses | components/calendar-view.tsx:118 | A cell lists the first two of its lessons, or all of them when there are fewer. |
| CalendarView.OverflowLabel | components/calendar-view.tsx:136-137 | The `+n` label appears exactly when there are more than two lessons, and `n` is positive. |
| CalendarView.CellAccountsForAll | components/calendar-view.tsx:118-137 | The listed lessons plus the label's number account for every lesson of the day. |
| ReminderSystem.UnreadCount | components/reminder-system.tsx:28 | The count never exceeds the number of reminders, and it is positive (the badge shows) exactly when some reminder is unread. |
| ReminderSystem.FilteredReminders | components/reminder-system.tsx:30-35 | A tab shows exactly the reminders it selects, and no more than there are. |
| ReminderSystem.FilteredInOrder | components/reminder-system.tsx:30-35 | A tab keeps list order and each shown reminder's multiplicity. |
| ReminderSystem.AllShowsEverything | components/reminder-system.tsx:34 | The All tab shows the list unchanged. |
| ReminderSystem.UnreadTabMatchesBadge | components/reminder-system.tsx:28-31 | The Unread tab lists as many reminders as the badge counts, and unread plus read is the whole list. |
| ReminderSystem.TypeTabsDisjoint | components/reminder-system.tsx:32-33 | The Payment and Class tabs share no reminder, and together they list at most the whole list. |

## Left out

- Firestore and network I/O are left out. This covers `createClass`, `updateClass`, `Promise.all`, the subscriptions, loading flags, alerts and logging. Writes are results, or the pure effect `Lessons.SetPaid` on a store sequence; a failed write is not modelled.
- Time zones are left out. `new Date("YYYY-MM-DD")` is read as midnight UTC and `getDay` as local time, and the model treats both as one timezone-free civil date.
- A start date with a day that does not exist, such as `2025-02-30`, is treated as unreadable, giving `Success([])`. JavaScript engines roll such a day over into the next month instead. A date input never produces such a string.
- Years are limited to 0–9999, the only years the `YYYY-MM-DD` form covers. `CalendarView.DateKeyIso` needs four-digit years, because `String(year)` has no padding.
- TeacherDashboard.BulkSchedule: start years 0–99 are not modelled. JavaScript's `new Date(y, m, d)` reads a year of 0–99 as 1900 + y, so for such a start date `endOfMonth` (teacher-dashboard.tsx:203) lies in 1900 + y. The source's loop is then bounded only by the package and runs past the end of the month, while the model always stops at the month's end.
- TeacherDashboard.ScheduleMonth: for the same reason, for start years 0–99 the model's month-end stop is not the source's.
- CivilDate.EndOfMonth: this is the last day of the date's own month, which is what `new Date(y, m + 1, 0)` gives for years 100 and later; the 1900 + y offset for years 0–99 is not modelled.
- The calendar's two-argument `new Date` calls (calendar-view.tsx:28, 32, 41, 45) have the same 1900 + y offset for years 0–99, and the model does not capture it.
- The clock is a parameter. `new Date()` and `Date.now()` become the current month key for the student status card and the due date for the older summary. The upcoming-lesson count of the teacher dashboard (teacher-dashboard.tsx:279) compares with the clock and is not modelled.
- `nextDueDate` (student-dashboard.tsx:105-108), built by `setMonth` overflow on today's date, is not modelled.
- Fees and totals are unbounded integers. JavaScript numbers are floating point, so `NaN` and rounding are not modelled.
- `localeCompare` is modelled as code-unit order. For the all-digit `YYYY-MM` keys the two agree, but locale rules are not modelled.
- The stable sort is modelled by a stable insertion sort. The proofs state its sortedness and that it permutes its input.
- Rendering is left out: toasts, dialogs, `toLocaleString` labels, `monthName`, the `currentMonth` value unused in monthly-payment-tracking.tsx:55, and the reminder popover's open state.
- The reminder list is a parameter. In reminder-system.tsx it is always empty, pending a future data source.
- Passing the teacher view's lessons to the monthly rows (teacher-dashboard.tsx:712) is not modelled. The monthly rows are modelled over stored lessons.
- The student dashboard's loading of lessons by email (student-dashboard.tsx:39-69) is not modelled. The model starts from the projected lessons.
- `CalendarView.InitialMonth` is the opening month, 2025-10. It is a constant with no contract.
- `TeacherDashboard.ScheduleClass` models the request only; `studentId` is the placeholder `"temp-student-id"` that the source writes.
- `MonthlyPaymentTracking.ToggleLaw` is stated for rows whose email is present and whose lessons have full dates. For email-less rows the as-written toggle over-selects (see Findings).

## Findings

| source | as written | input that shows it | evidently intended | confidence | as-written member | corrected member |
|---|---|---|---|---|---|---|
| components/monthly-payment-tracking.tsx:41-44 | The month toggle selects lessons whose `studentEmail` or `studentId` equals the row's email, and the row's date prefix. When the row has no email, `undefined === undefined` selects every email-less lesson of the month. Where the teacher dashboard passes its view lessons, which carry no `studentId` (teacher-dashboard.tsx:89-101, 712), `cls.studentId === undefined` holds for every lesson, so such a toggle selects every lesson of the month. | Two lessons in 2025-10 with no email and student ids `a` and `b` form two rows. Toggling row `a` also selects `b`'s lesson. | Toggling a row updates exactly the lessons of that row (same `studentEmail \|\| studentId` key and month). | not executed | MonthlyPaymentTracking.ToggleOverSelects | MonthlyPaymentTracking.ToggleGroupLaw |
