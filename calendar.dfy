/**
 * The month view: its state (the month shown, the selected day, the events
 * store), the handlers that replace that state, and the grid of day cells
 * it renders for the month shown.
 */
module CalendarView {
  import opened Model
  import opened Gregorian
  import opened EventStore
  import EventModal

  /** A grid cell: a placeholder before the first of the month, or one day of the month. */
  datatype Cell = Blank | DayCell(date: Date)

  /**
   * The cells `renderDays` lays out under the seven weekday headers: one
   * blank per weekday before the first of the month (Sunday is column 0),
   * then every day of the month in order.
   */
  function MonthGrid(y: int, m: int): (g: seq<Cell>)
    requires 0 <= m < 12
    ensures |g| == Weekday(Date(y, m, 1)) + DaysInMonth(y, m)
    ensures forall i :: 0 <= i < Weekday(Date(y, m, 1)) ==> g[i] == Blank
    ensures forall i :: Weekday(Date(y, m, 1)) <= i < |g| ==>
              g[i] == DayCell(Date(y, m, i - Weekday(Date(y, m, 1)) + 1))
  {
    var w := Weekday(Date(y, m, 1));
    seq(w, _ => Blank) + seq(DaysInMonth(y, m), k => DayCell(Date(y, m, k + 1)))
  }

  /** Every day cell holds a real date of the month shown. */
  lemma GridDaysAreValid(y: int, m: int, i: int)
    requires 0 <= m < 12 && 0 <= i < |MonthGrid(y, m)|
    requires MonthGrid(y, m)[i].DayCell?
    ensures ValidDate(MonthGrid(y, m)[i].date)
    ensures MonthGrid(y, m)[i].date.year == y && MonthGrid(y, m)[i].date.month == m
  {
  }

  lemma DayNumberWithinMonth(y: int, m: int, k: int)
    requires 0 <= m < 12
    ensures DayNumber(Date(y, m, k)) == DayNumber(Date(y, m, 1)) + k - 1
  {
  }

  /** The grid keeps week alignment: every day sits in the column of its weekday. */
  lemma {:induction false} GridColumnIsWeekday(y: int, m: int, i: int)
    requires 0 <= m < 12 && 0 <= i < |MonthGrid(y, m)|
    requires MonthGrid(y, m)[i].DayCell?
    ensures i % 7 == Weekday(MonthGrid(y, m)[i].date)
  {
    var w := Weekday(Date(y, m, 1));
    var k := i - w + 1;
    assert MonthGrid(y, m)[i] == DayCell(Date(y, m, k));
    DayNumberWithinMonth(y, m, k);
    var d0 := DayNumber(Date(y, m, 1));
    assert w == (d0 + 1) % 7;
    assert Weekday(Date(y, m, k)) == (d0 + k) % 7;
    assert i == w + (k - 1);
    ModSevenShift(d0 + 1, k - 1);
  }

  /**
   * The next month's grid picks up where this one leaves off: its number of
   * blanks is the column after this month's last cell.
   */
  lemma {:induction false} NextGridContinues(y: int, m: int)
    requires 0 <= m < 12
    ensures Weekday(Date(FollowingMonth(y, m).0, FollowingMonth(y, m).1, 1)) == |MonthGrid(y, m)| % 7
  {
    NextMonthDayNumber(y, m);
    var d0 := DayNumber(Date(y, m, 1));
    assert |MonthGrid(y, m)| == (d0 + 1) % 7 + DaysInMonth(y, m);
    ModSevenShift(d0 + 1, DaysInMonth(y, m));
  }

  lemma ModSevenShift(a: int, b: int)
    ensures ((a % 7) + b) % 7 == (a + b) % 7
  {
    var q := a / 7;
    assert a + b == 7 * q + ((a % 7) + b);
  }

  /** March 2024 begins on a Friday: five blanks, then the 31 days. */
  lemma March2024()
    ensures |MonthGrid(2024, 2)| == 5 + 31
    ensures forall i :: 0 <= i < 5 ==> MonthGrid(2024, 2)[i] == Blank
    ensures MonthGrid(2024, 2)[5] == DayCell(Date(2024, 2, 1))
  {
    assert DaysBeforeYear(2024) == 738885;
    assert DaysBeforeMonth(2024, 2) == 60;
    assert Weekday(Date(2024, 2, 1)) == 5;
  }

  /** `new Date(year, month - 1, 1)`: the first of the previous month. */
  function PrevMonth(d: Date): (r: Date)
    ensures ValidDate(r) && r.day == 1
  {
    MonthStart(d.year, d.month - 1)
  }

  /** `new Date(year, month + 1, 1)`: the first of the next month. */
  function NextMonth(d: Date): (r: Date)
    ensures ValidDate(r) && r.day == 1
  {
    MonthStart(d.year, d.month + 1)
  }

  /** Outside the two-digit years, a month index from -1 to 12 lands in the neighbouring years as expected. */
  lemma MonthStartNearYear(y: int, m: int)
    requires y < 0 || y > 99
    requires -1 <= m <= 12
    ensures m == -1 ==> MonthStart(y, m) == Date(y - 1, 11, 1)
    ensures 0 <= m < 12 ==> MonthStart(y, m) == Date(y, m, 1)
    ensures m == 12 ==> MonthStart(y, m) == Date(y + 1, 0, 1)
  {
  }

  /** Outside the years the Date constructor reads as two-digit years, stepping moves by exactly one month. */
  lemma NextMonthIsFollowing(d: Date)
    requires 0 <= d.month < 12
    requires d.year < 0 || d.year > 99
    ensures (NextMonth(d).year, NextMonth(d).month) == FollowingMonth(d.year, d.month)
  {
    MonthStartNearYear(d.year, d.month + 1);
  }

  lemma PrevMonthIsPreceding(d: Date)
    requires 0 <= d.month < 12
    requires d.year < 0 || d.year > 99
    ensures FollowingMonth(PrevMonth(d).year, PrevMonth(d).month) == (d.year, d.month)
  {
    MonthStartNearYear(d.year, d.month - 1);
  }

  /** December steps to January of the next year, January to December of the previous one. */
  lemma YearWrap(y: int)
    requires y < -1 || y > 100
    ensures NextMonth(Date(y, 11, 1)) == Date(y + 1, 0, 1)
    ensures PrevMonth(Date(y, 0, 1)) == Date(y - 1, 11, 1)
  {
    MonthStartNearYear(y, 12);
    MonthStartNearYear(y, -1);
  }

  /** Next after previous, and previous after next, return to the first of the original month. */
  lemma NavigationRoundTrip(d: Date)
    requires 0 <= d.month < 12
    requires d.year < -1 || d.year > 100
    ensures NextMonth(PrevMonth(d)) == Date(d.year, d.month, 1)
    ensures PrevMonth(NextMonth(d)) == Date(d.year, d.month, 1)
  {
    var p, n := PrevMonth(d), NextMonth(d);
    MonthStartNearYear(d.year, d.month - 1);
    MonthStartNearYear(d.year, d.month + 1);
    MonthStartNearYear(p.year, p.month + 1);
    MonthStartNearYear(n.year, n.month - 1);
  }

  /**
   * Near year 100 the round trip breaks: from January 100 the previous month
   * is December 99, whose next month the Date constructor reads as a month
   * of 1999 and so gives January 2000.
   */
  lemma RoundTripFailsAtYear100()
    ensures PrevMonth(Date(100, 0, 1)) == Date(99, 11, 1)
    ensures NextMonth(Date(99, 11, 1)) == Date(2000, 0, 1)
  {
  }

  /** The month view's state. */
  class Calendar {
    var currentDate: Date
    var selectedDate: Option<Date>
    var events: Store
    var isModalOpen: bool
    var isEventListOpen: bool

    ghost predicate Valid()
      reads this
    {
      ValidDate(currentDate)
    }

    /** Opens on `today` with the events read from storage (`stored`). */
    constructor (today: Date, stored: Store)
      requires ValidDate(today)
      ensures Valid()
      ensures currentDate == today && selectedDate == None && events == stored
      ensures !isModalOpen && !isEventListOpen
    {
      currentDate, selectedDate, events := today, None, stored;
      isModalOpen, isEventListOpen := false, false;
    }

    /** The grid for the month shown. */
    function RenderDays(): (g: seq<Cell>)
      reads this
      requires Valid()
      ensures g == MonthGrid(currentDate.year, currentDate.month)
      ensures |g| == Weekday(Date(currentDate.year, currentDate.month, 1)) + DaysInMonth(currentDate.year, currentDate.month)
    {
      MonthGrid(currentDate.year, currentDate.month)
    }

    method HandleDateClick(day: Date)
      modifies this
      ensures selectedDate == Some(day) && isEventListOpen
      ensures currentDate == old(currentDate) && events == old(events) && isModalOpen == old(isModalOpen)
    {
      selectedDate, isEventListOpen := Some(day), true;
    }

    method HandlePrevMonth()
      modifies this
      ensures Valid() && currentDate == PrevMonth(old(currentDate))
      ensures selectedDate == old(selectedDate) && events == old(events)
      ensures isModalOpen == old(isModalOpen) && isEventListOpen == old(isEventListOpen)
    {
      currentDate := PrevMonth(currentDate);
    }

    method HandleNextMonth()
      modifies this
      ensures Valid() && currentDate == NextMonth(old(currentDate))
      ensures selectedDate == old(selectedDate) && events == old(events)
      ensures isModalOpen == old(isModalOpen) && isEventListOpen == old(isEventListOpen)
    {
      currentDate := NextMonth(currentDate);
    }

    method HandleAddEvent()
      modifies this
      ensures isModalOpen
      ensures currentDate == old(currentDate) && selectedDate == old(selectedDate) && events == old(events)
      ensures isEventListOpen == old(isEventListOpen)
    {
      isModalOpen := true;
    }

    method HandleCloseModal()
      modifies this
      ensures !isModalOpen
      ensures currentDate == old(currentDate) && selectedDate == old(selectedDate) && events == old(events)
      ensures isEventListOpen == old(isEventListOpen)
    {
      isModalOpen := false;
    }

    method HandleCloseEventList()
      modifies this
      ensures !isEventListOpen
      ensures currentDate == old(currentDate) && selectedDate == old(selectedDate) && events == old(events)
      ensures isModalOpen == old(isModalOpen)
    {
      isEventListOpen := false;
    }

    /** `events[format(selectedDate)] || []`: what the dialog and the list are given. */
    function SelectedDayEvents(): (r: seq<Event>)
      reads this
      requires selectedDate.Some?
      ensures selectedDate.value in events ==> r == events[selectedDate.value]
      ensures selectedDate.value !in events ==> r == []
    {
      DayEvents(events, selectedDate.value)
    }

    /** Appends `e` to the selected day, creating the day when absent, and closes the dialog. */
    method AddEvent(e: Event)
      requires selectedDate.Some?
      modifies this
      ensures events == WithAdded(old(events), old(selectedDate).value, e) && !isModalOpen
      ensures currentDate == old(currentDate) && selectedDate == old(selectedDate)
      ensures isEventListOpen == old(isEventListOpen)
    {
      events := WithAdded(events, selectedDate.value, e);
      isModalOpen := false;
    }

    /**
     * Replaces the selected day's events that carry `e.id` by `e` and closes
     * the dialog. The source reads the day's list without a fallback, so an
     * absent day raises a TypeError; here that is `ok == false`, with the
     * state left as it was.
     */
    method EditEvent(e: Event) returns (ok: bool)
      requires selectedDate.Some?
      modifies this
      ensures ok <==> old(selectedDate).value in old(events)
      ensures ok ==> events == WithEdited(old(events), old(selectedDate).value, e) && !isModalOpen
      ensures !ok ==> events == old(events) && isModalOpen == old(isModalOpen)
      ensures currentDate == old(currentDate) && selectedDate == old(selectedDate)
      ensures isEventListOpen == old(isEventListOpen)
    {
      ok := selectedDate.value in events;
      if ok {
        events := WithEdited(events, selectedDate.value, e);
        isModalOpen := false;
      }
    }

    /**
     * Removes the selected day's events that carry `id`; the day stays in
     * the store, possibly empty. An absent day raises a TypeError in the
     * source; here that is `ok == false`, with the state left as it was.
     */
    method DeleteEvent(id: int) returns (ok: bool)
      requires selectedDate.Some?
      modifies this
      ensures ok <==> old(selectedDate).value in old(events)
      ensures ok ==> events == WithDeleted(old(events), old(selectedDate).value, id)
      ensures !ok ==> events == old(events)
      ensures currentDate == old(currentDate) && selectedDate == old(selectedDate)
      ensures isModalOpen == old(isModalOpen) && isEventListOpen == old(isEventListOpen)
    {
      ok := selectedDate.value in events;
      if ok {
        events := WithDeleted(events, selectedDate.value, id);
      }
    }

    /**
     * The month view's dialog: checked against the selected day's events, an
     * admitted event goes to `AddEvent` and the dialog closes; a rejected one
     * changes nothing.
     */
    method SubmitModal(form: EventModal.EventForm, now: int) returns (added: Option<Event>)
      requires selectedDate.Some?
      requires form.title != ""
      modifies this, form
      ensures added.Some? ==>
                added.value == Event(now, old(form.title), old(form.startTime), old(form.endTime),
                                     old(form.category), Some(old(form.description)))
                && form.IsReset()
      ensures added == None ==> unchanged(form)
      ensures added.Some? <==> !EventModal.HasOverlap(old(SelectedDayEvents()), old(form.startTime), old(form.endTime))
      ensures added.Some? ==> events == WithAdded(old(events), old(selectedDate).value, added.value) && !isModalOpen
      ensures added == None ==> events == old(events) && isModalOpen == old(isModalOpen)
      ensures currentDate == old(currentDate) && selectedDate == old(selectedDate)
      ensures isEventListOpen == old(isEventListOpen)
    {
      added := form.HandleSubmit(SelectedDayEvents(), now);
      if added.Some? {
        AddEvent(added.value);
      }
    }
  }
}
