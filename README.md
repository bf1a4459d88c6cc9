# EventFlow calendar core, modelled in Dafny

EventFlow is a browser calendar. Events are filed by day in a store. The
month view shows a grid of days and lets the user step between months. An
add-event dialog turns down a time slot that collides with an event already
on that day. A sidebar lists today's events by start time. A search box
filters a day's events by title or description.

This project models that logic and proves properties of it:

- `model.dfy` (`Model`): events, categories, times of day in minutes since
  midnight, calendar dates (month counted from 0, as `Date.getMonth` does),
  and an order-preserving-subsequence predicate.
- `gregorian.dfy` (`Gregorian`): month lengths, leap years, day numbers and
  weekdays in the proleptic Gregorian calendar. These stand in for
  `startOfMonth`, `endOfMonth` and `getDay`. `MonthStart` models the month
  arithmetic of JavaScript's `new Date(y, m, 1)`.
- `event_store.dfy` (`EventStore`): the store as a `map` from day to events,
  and the copy-then-assign updates applied to it.
- `calendar.dfy` (`CalendarView`): the month grid, month stepping, and the
  class `Calendar` holding the month view's state and handlers.
- `event_modal.dfy` (`EventModal`): the dialog's overlap test, and the class
  `EventForm` whose submit handler adds and resets or rejects.
- `events_sidebar.dfy` (`EventsSidebar`): the stable sort by start time,
  done in place on an array copy, and the class `Sidebar`.
- `event_list.dfy` (`EventList`): the case-insensitive search filter.

Where the code does less than its interface suggests, the model follows the code:

- **Overlap test.** The dialog flags a candidate only when its start falls
  in `[start, end)` of an existing event, or its end falls in
  `(start, end]`. A candidate that strictly contains an existing event is
  admitted. So the "no two events of a day overlap" invariant does not hold
  (`ContainingCandidateAdmitted`). What does hold is the weaker
  `AdmittedInOrder`.
- **Editing.** There is no exclude-self case, and no form ever calls the
  edit handler.
- **Interval validation.** Nothing checks that `start < end`.
- **Empty days.** Deleting a day's last event leaves the day in the store
  with an empty list.
- **Missing day.** Editing or deleting on a day that has no entry raises a
  TypeError. The model reports this as `ok == false` and is not a
  "not found" result.

## Model

| member | source | states |
|---|---|---|
| Gregorian.DaysInMonth | src/components/Calendar.jsx:197 | a month has 28 to 31 days, and 29 exactly for February of a leap year |
| Gregorian.Weekday | src/components/Calendar.jsx:200 | the weekday number is 0 (Sunday) to 6 |
| Gregorian.NextMonthDayNumber | src/components/Calendar.jsx:196-198 | the first of the following month, wrapping December into the next year, lies exactly DaysInMonth days after the first of this month |
| Gregorian.MonthStart | src/components/Calendar.jsx:131 | `new Date(y, m, 1)` gives a valid date on day 1, month `m mod 12`, year carried by `floor(m / 12)`, years 0..99 read as 1900..1999 |
| EventStore.DayEvents | src/components/Calendar.jsx:245 | a day with no entry reads as the empty list, otherwise as its stored list |
| EventStore.WithAdded | src/components/Calendar.jsx:152-155 | the day's list becomes the old list (or the empty one) with the event appended at the end; the day is created if absent; every other day keeps its list |
| EventStore.ReplaceById | src/components/Calendar.jsx:164-166 | same length and order; exactly the entries whose id equals the edited event's id become the edited event, all others are kept |
| EventStore.RemoveById | src/components/Calendar.jsx:176 | the result is an order-preserving subsequence, holds no event with the id, keeps every other event with its multiplicity, and equals the input when no event has the id |
| EventStore.WithEdited | src/components/Calendar.jsx:162-167 | only the edited day changes, to its list with replacements; the set of days is unchanged |
| EventStore.WithDeleted | src/components/Calendar.jsx:174-177 | only the day changes, to its filtered list; the day stays present even when emptied |
| CalendarView.MonthGrid | src/components/Calendar.jsx:195-225 | the grid has Weekday(first of month) leading blanks, then one cell per day 1..DaysInMonth in ascending order |
| CalendarView.GridDaysAreValid | src/components/Calendar.jsx:198 | every day cell holds a valid date of the month shown |
| CalendarView.GridColumnIsWeekday | src/components/Calendar.jsx:200-225 | week alignment: the cell at index i holds a day whose weekday is i mod 7 |
| CalendarView.NextGridContinues | src/components/Calendar.jsx:200-201 | the next month's blank count is this grid's length mod 7, so consecutive months line up |
| CalendarView.March2024 | src/components/Calendar.jsx:196-201 | March 2024 has 5 leading blanks followed by 31 day cells |
| CalendarView.PrevMonth | src/components/Calendar.jsx:130-132 | previous-month navigation lands on a valid date, always day 1 |
| CalendarView.NextMonth | src/components/Calendar.jsx:134-136 | next-month navigation lands on a valid date, always day 1 |
| CalendarView.NextMonthIsFollowing | src/components/Calendar.jsx:134-136 | outside years 0..99, next-month steps exactly one month forward |
| CalendarView.PrevMonthIsPreceding | src/components/Calendar.jsx:130-132 | outside years 0..99, previous-month steps exactly one month back |
| CalendarView.YearWrap | src/components/Calendar.jsx:130-136 | December steps forward to January of the next year, January back to December of the previous one |
| CalendarView.NavigationRoundTrip | src/components/Calendar.jsx:130-136 | next after previous, and previous after next, return to the first of the original month (years outside -1..100) |
| CalendarView.RoundTripFailsAtYear100 | src/components/Calendar.jsx:131-135 | at January of year 100 the round trip lands in January 2000, by the Date constructor's two-digit year rule |
| CalendarView.Calendar.constructor | src/components/Calendar.jsx:112-119 | the view opens on today with the stored events, nothing selected, dialog and list closed |
| CalendarView.Calendar.RenderDays | src/components/Calendar.jsx:195-201 | the grid rendered is MonthGrid of the month shown: one blank per weekday before the first, then every day of that month |
| CalendarView.Calendar.HandleDateClick | src/components/Calendar.jsx:125-128 | selects the day and opens the list, nothing else changes |
| CalendarView.Calendar.HandlePrevMonth | src/components/Calendar.jsx:130-132 | the month shown becomes PrevMonth of it, nothing else changes |
| CalendarView.Calendar.HandleNextMonth | src/components/Calendar.jsx:134-136 | the month shown becomes NextMonth of it, nothing else changes |
| CalendarView.Calendar.HandleAddEvent | src/components/Calendar.jsx:138-140 | opens the dialog, nothing else changes |
| CalendarView.Calendar.HandleCloseModal | src/components/Calendar.jsx:142-144 | closes the dialog, nothing else changes |
| CalendarView.Calendar.HandleCloseEventList | src/components/Calendar.jsx:146-148 | closes the list, nothing else changes |
| CalendarView.Calendar.SelectedDayEvents | src/components/Calendar.jsx:253 | the dialog and the list get the stored list of the selected day when it is present, and the empty list when it is absent |
| CalendarView.Calendar.AddEvent | src/components/Calendar.jsx:150-158 | the store becomes WithAdded on the selected day and the dialog closes |
| CalendarView.Calendar.EditEvent | src/components/Calendar.jsx:160-170 | succeeds exactly when the selected day is present; then the store becomes WithEdited and the dialog closes; otherwise nothing changes |
| CalendarView.Calendar.DeleteEvent | src/components/Calendar.jsx:172-179 | succeeds exactly when the selected day is present; then the store becomes WithDeleted; otherwise nothing changes |
| CalendarView.Calendar.SubmitModal | src/components/Calendar.jsx:239-246 | an event is added exactly when the form's slot does not overlap the selected day's events; the added event is the one built from the form's fields with id `now`, and the form is reset; a rejection leaves the store, the dialog and the form as they were |
| EventModal.Conflicts | src/components/EventModal.jsx:102-105 | the per-event test of `some`; for a forward candidate (start < end) a conflict is a real intersection of the two intervals |
| EventModal.HasOverlap | src/components/EventModal.jsx:98-106 | a candidate is rejected iff some existing event has start <= s < end or start < e <= end |
| EventModal.TouchingIsNoConflict | src/components/EventModal.jsx:103-104 | a candidate that starts at an event's end, or ends at its start, does not conflict with it |
| EventModal.SameIntervalConflicts | src/components/EventModal.jsx:103 | a candidate with the same non-empty interval as an event conflicts with it |
| EventModal.ContainmentIsNoConflict | src/components/EventModal.jsx:102-105 | a candidate that strictly contains an event is not flagged |
| EventModal.ConflictsIsIntersectionWithoutContainment | src/components/EventModal.jsx:102-105 | for well-formed intervals the test is exactly interval intersection minus strict containment |
| EventModal.BackwardsCandidateFlagged | src/components/EventModal.jsx:95-105 | with no start-before-end validation, a backwards candidate can be flagged although it shares no minute |
| EventModal.EmptyDayAdmitsAll | src/components/EventModal.jsx:98 | a day without events admits every candidate, even one whose end is not after its start |
| EventModal.AdmittedIntersectsOnlyContained | src/components/EventModal.jsx:98-111 | an admitted well-formed candidate shares minutes only with events it strictly contains |
| EventModal.AdmissionPreservesOrder | src/components/EventModal.jsx:108-120 | appending an admitted event keeps AdmittedInOrder: no event conflicts with an earlier one |
| EventModal.RemovalPreservesOrder | src/components/Calendar.jsx:176 | deleting events keeps AdmittedInOrder |
| EventModal.ContainingCandidateAdmitted | src/components/EventModal.jsx:102-111 | 09:00-12:00 is admitted next to 10:00-11:00 although they overlap |
| EventModal.EventForm.constructor | src/components/EventModal.jsx:85-89 | the form starts as title "", 09:00, 10:00, work, description "" |
| EventModal.EventForm.HandleSubmit | src/components/EventModal.jsx:91-128 | on overlap no event and the form unchanged; otherwise exactly the event built from the form's fields and the given id, and the form reset |
| EventsSidebar.InsertByStart | src/components/EventsSidebar.jsx:85-87 | one insertion step of the sort adds exactly one event (its placement is InsertBetween / InsertInPlace, its content InsertPermutes) |
| EventsSidebar.SortByStart | src/components/EventsSidebar.jsx:85-87 | the comparator sort of today's copy keeps the number of events (permutation, order and stability are SortPermutes, SortIsSorted, SortIsStable) |
| EventsSidebar.SortPermutes | src/components/EventsSidebar.jsx:85-87 | SortByStart returns a permutation of its input: the same events with the same multiplicities |
| EventsSidebar.SortIsSorted | src/components/EventsSidebar.jsx:86 | the sorted list is in non-decreasing order of start time |
| EventsSidebar.SortIsStable | src/components/EventsSidebar.jsx:85-87 | events with equal start times keep their relative order |
| EventsSidebar.StableSortIsUnique | src/components/EventsSidebar.jsx:85-87 | any sorted and stable rearrangement equals SortByStart, as `Array.prototype.sort` must be stable |
| EventsSidebar.InsertInPlace | src/components/EventsSidebar.jsx:85-87 | one in-place insertion step leaves the prefix equal to the insertion of the next event and the rest of the array untouched |
| EventsSidebar.SortedCopy | src/components/EventsSidebar.jsx:85-87 | sorting a fresh array copy returns SortByStart of the events; the input sequence is a value and is not mutated |
| EventsSidebar.AdmitThenListScenario | src/components/EventsSidebar.jsx:85-87 | with 09:00-10:00 on the day, 09:30-10:30 is rejected, 10:00-11:00 admitted, and both list 09:00 first |
| EventsSidebar.Sidebar.constructor | src/components/EventsSidebar.jsx:79-81 | the sidebar sees the shared store and fixes today |
| EventsSidebar.Sidebar.TodayEvents | src/components/EventsSidebar.jsx:82 | a missing entry for today yields the empty list |
| EventsSidebar.Sidebar.SortedEvents | src/components/EventsSidebar.jsx:85-87 | the rendered list is SortByStart of today's events |
| EventsSidebar.Sidebar.AddEvent | src/components/EventsSidebar.jsx:97-104 | appends to the end of today's list, creating it if absent; other days unchanged |
| EventsSidebar.Sidebar.SubmitModal | src/components/EventsSidebar.jsx:133-139 | the sidebar's dialog checks against today's events and adds to today exactly when there is no overlap; the added event is the one built from the form with id `now` and the form is reset; a rejection leaves the store and the form as they were |
| EventList.Lower | src/components/EventList.jsx:53-54 | `toLowerCase`: same length, and no ASCII capital letter remains |
| EventList.Contains | src/components/EventList.jsx:53-54 | `includes`: holds exactly when the term is a prefix of some suffix of the string |
| EventList.Matches | src/components/EventList.jsx:53-54 | the filter's test on title or present description; it never holds for a term longer than both fields |
| EventList.Filter | src/components/EventList.jsx:52-55 | an order-preserving subsequence; every kept event matches; every matching event is kept with its multiplicity |
| EventList.EmptyTermKeepsAll | src/components/EventList.jsx:53 | an empty search term keeps every event |
| EventList.AbsentDescriptionByTitle | src/components/EventList.jsx:54 | an event without a description is kept exactly when its title matches; the absent description never fails |
| EventList.FilterDependsOnLowerTerm | src/components/EventList.jsx:53-54 | two terms with the same lower-cased form give the same result |
| EventList.UpperTermSameResult | src/components/EventList.jsx:53-54 | a term and its upper-case form give the same result |
| EventList.TeamExample | src/components/EventList.jsx:52-55 | "TEAM" matches "Team sync" by title and "team lunch" by description, and skips an unrelated event |

## Left out

- Rendering and styling: styled components, JSX, the dialog component, drag-and-drop, icons, and the today/selected highlighting of grid cells. These are presentation only.
- Persistence: `localStorage` reads and writes (unguarded `JSON.parse` included) are browser I/O. The stored map is a constructor parameter of `Calendar`.
- Export of a day's events to a downloaded JSON file: DOM and download I/O.
- The `alert` on a rejected slot is a UI side effect. Rejection is `HandleSubmit` returning `None`.
- Clock and id source: `Date.now()` ids and `new Date()` / "today" are parameters (`now`, `today`).
- Date keys are `Date` values rather than `yyyy-MM-dd` strings. The formatting is one-to-one on dates, so the store behaves the same.
- Times are minutes since midnight, not "HH:MM" strings turned into `Date`s. Both sides of each comparison are built on the same day. Required `type="time"` inputs always hold a valid time.
- The title input is `required`, so the browser does not submit an empty title. `EventForm.HandleSubmit` and both `SubmitModal`s therefore require a non-empty title; the browser's own validation message is not modelled.
- EventsSidebar.SortByStart: its own contract gives only the length, to keep the solver's work small where it is used; that the result is a sorted, stable permutation is stated by the lemmas SortPermutes, SortIsSorted and SortIsStable.
- The form's `onChange` setters are plain field assignments on `EventForm`. The dialog's `isOpen` early return is presentation.
- When the sidebar's dialog closes, it clears the sidebar's own "dialog open" flag. This is presentation and is not modelled.
- EventList.Lower: lower-cases ASCII letters only. JavaScript's `toLowerCase` also maps letters outside ASCII.
- CalendarView.Calendar.EditEvent: the TypeError on an absent day is modelled as `ok == false` with the state unchanged. The model does not show how React then fails.
- CalendarView.Calendar.DeleteEvent: the same absent-day treatment as `EditEvent`.
- Years are unbounded. JavaScript limits `Date` to about 275,760 years either side of 1970.
- React context wiring: the two providers hold independent stores (the month view's and the application's). `Calendar` and `Sidebar` each hold their own map.
- src/components/ui/button.jsx, src/components/ui/label.jsx and src/App.jsx hold class-name composition and storage/context glue. They have no logic to model.
