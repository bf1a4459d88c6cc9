/**
 * The add-event dialog: the overlap test that decides whether the form's
 * time slot is admitted to the day, and the submit handler that hands the
 * new event to its parent and resets the form.
 */
module EventModal {
  import opened Model
  import opened EventStore

  /**
   * The test the dialog applies to one existing event: the candidate's start
   * lies in [start, end) of `x`, or its end lies in (start, end] of `x`.
   * It is not the full interval-intersection test: a candidate that strictly
   * contains `x` is not caught.
   */
  predicate Conflicts(x: Event, start: Minute, end: Minute)
    ensures start < end && Conflicts(x, start, end) ==> Intersects(x, start, end)
  {
    (start >= x.startTime && start < x.endTime) || (end > x.startTime && end <= x.endTime)
  }

  /** `events.some(...)`: the candidate conflicts with some event of the day. */
  function HasOverlap(events: seq<Event>, start: Minute, end: Minute): (b: bool)
    ensures b <==> exists i :: 0 <= i < |events| && Conflicts(events[i], start, end)
  {
    if events == [] then false
    else Conflicts(events[0], start, end) || HasOverlap(events[1..], start, end)
  }

  /** Half-open intervals [start, end) that share a minute. */
  predicate Intersects(x: Event, start: Minute, end: Minute) {
    start < x.endTime && x.startTime < end
  }

  /** A candidate that begins when `x` ends, or ends when `x` begins, is admitted past `x`. */
  lemma TouchingIsNoConflict(x: Event, start: Minute, end: Minute)
    requires start < end
    requires start == x.endTime || end == x.startTime
    ensures !Conflicts(x, start, end)
  {
  }

  /** A candidate with the same (non-empty) interval as `x` is rejected. */
  lemma SameIntervalConflicts(x: Event)
    requires x.startTime < x.endTime
    ensures Conflicts(x, x.startTime, x.endTime)
  {
  }

  /** A candidate that strictly contains `x` is not flagged. */
  lemma ContainmentIsNoConflict(x: Event, start: Minute, end: Minute)
    requires start < x.startTime && x.endTime < end
    ensures !Conflicts(x, start, end)
  {
  }

  /**
   * For well-formed intervals the dialog's test is the interval intersection
   * minus strict containment of `x` by the candidate.
   */
  lemma ConflictsIsIntersectionWithoutContainment(x: Event, start: Minute, end: Minute)
    requires start < end && x.startTime < x.endTime
    ensures Conflicts(x, start, end) <==> Intersects(x, start, end) && !(start < x.startTime && x.endTime < end)
  {
  }

  /** Without well-formed intervals the test is not sound: a backwards candidate can be flagged without sharing a minute. */
  lemma BackwardsCandidateFlagged()
    ensures var x := Event(1, "a", 540, 600, Work, None);
            Conflicts(x, 540, 480) && !Intersects(x, 540, 480)
  {
  }

  /** An empty day admits every candidate, including one whose end is not after its start. */
  lemma EmptyDayAdmitsAll(start: Minute, end: Minute)
    ensures !HasOverlap([], start, end)
  {
  }

  /**
   * An admitted well-formed candidate shares minutes only with events it
   * strictly contains.
   */
  lemma {:induction false} AdmittedIntersectsOnlyContained(events: seq<Event>, start: Minute, end: Minute)
    requires start < end
    requires !HasOverlap(events, start, end)
    ensures forall i :: 0 <= i < |events| && events[i].startTime < events[i].endTime && Intersects(events[i], start, end) ==>
              start < events[i].startTime && events[i].endTime < end
  {
    forall i | 0 <= i < |events| && events[i].startTime < events[i].endTime && Intersects(events[i], start, end)
      ensures start < events[i].startTime && events[i].endTime < end
    {
      assert !Conflicts(events[i], start, end);
      ConflictsIsIntersectionWithoutContainment(events[i], start, end);
    }
  }

  /**
   * What the dialog does guarantee of a day filled only through it: no event
   * conflicts, in the dialog's sense, with an event admitted before it.
   */
  ghost predicate AdmittedInOrder(day: seq<Event>) {
    forall i, j :: 0 <= i < j < |day| ==> !Conflicts(day[i], day[j].startTime, day[j].endTime)
  }

  lemma AdmissionPreservesOrder(day: seq<Event>, e: Event)
    requires AdmittedInOrder(day)
    requires !HasOverlap(day, e.startTime, e.endTime)
    ensures AdmittedInOrder(day + [e])
  {
    var d := day + [e];
    forall i, j | 0 <= i < j < |d| ensures !Conflicts(d[i], d[j].startTime, d[j].endTime) {
      if j == |day| {
        assert d[i] == day[i];
      } else {
        assert d[i] == day[i] && d[j] == day[j];
      }
    }
  }

  lemma {:induction false} SubsequencePreservesOrder(a: seq<Event>, b: seq<Event>)
    requires IsSubsequence(a, b)
    requires AdmittedInOrder(b)
    ensures AdmittedInOrder(a)
    decreases |b|
  {
    if a != [] && b != [] {
      assert AdmittedInOrder(b[1..]) by {
        forall i, j | 0 <= i < j < |b| - 1 ensures !Conflicts(b[1..][i], b[1..][j].startTime, b[1..][j].endTime) {
          assert b[1..][i] == b[i + 1] && b[1..][j] == b[j + 1];
        }
      }
      if a[0] == b[0] && IsSubsequence(a[1..], b[1..]) {
        SubsequencePreservesOrder(a[1..], b[1..]);
        SubsequenceMembers(a[1..], b[1..]);
        forall i, j | 0 <= i < j < |a| ensures !Conflicts(a[i], a[j].startTime, a[j].endTime) {
          if i == 0 {
            assert a[j] == a[1..][j - 1];
            assert a[j] in b[1..];
            var k :| 0 <= k < |b[1..]| && b[1..][k] == a[j];
            assert b[k + 1] == a[j];
          } else {
            assert a[i] == a[1..][i - 1] && a[j] == a[1..][j - 1];
          }
        }
      } else {
        SubsequencePreservesOrder(a, b[1..]);
      }
    }
  }

  /** Deleting events keeps a day admitted in order. */
  lemma RemovalPreservesOrder(day: seq<Event>, id: int)
    requires AdmittedInOrder(day)
    ensures AdmittedInOrder(RemoveById(day, id))
  {
    SubsequencePreservesOrder(RemoveById(day, id), day);
  }

  /**
   * The invariant one would expect, that no two events of a day share a
   * minute, is not kept: 09:00-12:00 is admitted next to 10:00-11:00.
   */
  lemma ContainingCandidateAdmitted()
    ensures var x := Event(1, "a", 600, 660, Work, None);
            !HasOverlap([x], 540, 720) && Intersects(x, 540, 720)
  {
  }

  /** The form fields of the dialog. */
  class EventForm {
    var title: string
    var startTime: Minute
    var endTime: Minute
    var category: Category
    var description: string

    /** The form's initial and reset values: "", 09:00, 10:00, work, "". */
    predicate IsReset()
      reads this
    {
      title == "" && startTime == 540 && endTime == 600 && category == Work && description == ""
    }

    constructor ()
      ensures IsReset()
    {
      title, startTime, endTime, category, description := "", 540, 600, Work, "";
    }

    /**
     * Submitting the form against the day's events. On an overlap nothing
     * changes and no event is produced; otherwise the one event built from
     * the fields, with id `now`, is produced (for the parent's `onAddEvent`)
     * and the form resets. The title input is `required`, so the browser
     * submits only with a non-empty title.
     */
    method HandleSubmit(dayEvents: seq<Event>, now: int) returns (added: Option<Event>)
      requires title != ""
      modifies this
      ensures HasOverlap(dayEvents, old(startTime), old(endTime)) ==>
                added == None && unchanged(this)
      ensures !HasOverlap(dayEvents, old(startTime), old(endTime)) ==>
                added == Some(Event(now, old(title), old(startTime), old(endTime), old(category), Some(old(description))))
                && IsReset()
    {
      if HasOverlap(dayEvents, startTime, endTime) {
        return None;
      }
      added := Some(Event(now, title, startTime, endTime, category, Some(description)));
      title, startTime, endTime, category, description := "", 540, 600, Work, "";
    }
  }
}
