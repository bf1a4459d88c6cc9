/**
 * The sidebar: today's events listed in order of their start times, and
 * the sidebar's own add-event dialog, which files events under today.
 */
module EventsSidebar {
  import opened Model
  import opened EventStore
  import EventModal

  predicate SortedByStart(s: seq<Event>) {
    forall i, j :: 0 <= i < j < |s| ==> s[i].startTime <= s[j].startTime
  }

  /** The events of `s` that start at minute `t`, in their order. */
  function StartingAt(s: seq<Event>, t: Minute): seq<Event> {
    if s == [] then []
    else (if s[0].startTime == t then [s[0]] else []) + StartingAt(s[1..], t)
  }

  lemma {:induction false} StartingAtMembers(s: seq<Event>, t: Minute, x: Event)
    requires x in StartingAt(s, t)
    ensures x in s && x.startTime == t
  {
    if s != [] {
      if x != s[0] || s[0].startTime != t {
        StartingAtMembers(s[1..], t, x);
      }
    }
  }

  /**
   * `x` placed into `s` after every trailing event that starts later than
   * `x`: the position a stable insertion sort gives it.
   */
  function InsertByStart(s: seq<Event>, x: Event): (r: seq<Event>)
    ensures |r| == |s| + 1
  {
    if s == [] || s[|s| - 1].startTime <= x.startTime then s + [x]
    else InsertByStart(s[..|s| - 1], x) + [s[|s| - 1]]
  }

  /** Insertion adds exactly `x`. */
  lemma {:induction false} InsertPermutes(s: seq<Event>, x: Event)
    ensures multiset(InsertByStart(s, x)) == multiset(s) + multiset{x}
    decreases |s|
  {
    if s != [] && s[|s| - 1].startTime > x.startTime {
      assert s == s[..|s| - 1] + [s[|s| - 1]];
      InsertPermutes(s[..|s| - 1], x);
    }
  }

  /** Stable sort by start time: insertion of each event, from the first to the last. */
  function SortByStart(s: seq<Event>): (r: seq<Event>)
    ensures |r| == |s|
  {
    if s == [] then []
    else InsertByStart(SortByStart(s[..|s| - 1]), s[|s| - 1])
  }

  /** The sorted list is a permutation of the input. */
  lemma {:induction false} SortPermutes(s: seq<Event>)
    ensures multiset(SortByStart(s)) == multiset(s)
    decreases |s|
  {
    if s != [] {
      assert s == s[..|s| - 1] + [s[|s| - 1]];
      SortPermutes(s[..|s| - 1]);
      InsertPermutes(SortByStart(s[..|s| - 1]), s[|s| - 1]);
    }
  }

  lemma {:induction false} InsertKeepsSorted(s: seq<Event>, x: Event)
    requires SortedByStart(s)
    ensures SortedByStart(InsertByStart(s, x))
    decreases |s|
  {
    if s != [] && s[|s| - 1].startTime > x.startTime {
      var init, last := s[..|s| - 1], s[|s| - 1];
      InsertKeepsSorted(init, x);
      var r := InsertByStart(init, x);
      InsertPermutes(init, x);
      forall i | 0 <= i < |r| ensures r[i].startTime <= last.startTime {
        assert r[i] in multiset(r);
        assert r[i] in multiset(init) + multiset{x};
        if r[i] != x {
          assert r[i] in init;
        }
      }
    }
  }

  /** The sorted list is in non-decreasing order of start time. */
  lemma {:induction false} SortIsSorted(s: seq<Event>)
    ensures SortedByStart(SortByStart(s))
    decreases |s|
  {
    if s != [] {
      SortIsSorted(s[..|s| - 1]);
      InsertKeepsSorted(SortByStart(s[..|s| - 1]), s[|s| - 1]);
    }
  }

  lemma {:induction false} StartingAtConcat(a: seq<Event>, b: seq<Event>, t: Minute)
    ensures StartingAt(a + b, t) == StartingAt(a, t) + StartingAt(b, t)
    decreases |a|
  {
    if a == [] {
      assert a + b == b;
    } else {
      var h := if a[0].startTime == t then [a[0]] else [];
      assert (a + b)[0] == a[0];
      assert (a + b)[1..] == a[1..] + b;
      assert StartingAt(a + b, t) == h + StartingAt(a[1..] + b, t);
      StartingAtConcat(a[1..], b, t);
      assert h + (StartingAt(a[1..], t) + StartingAt(b, t)) == (h + StartingAt(a[1..], t)) + StartingAt(b, t);
    }
  }

  lemma {:induction false} InsertStable(s: seq<Event>, x: Event, t: Minute)
    ensures StartingAt(InsertByStart(s, x), t)
            == StartingAt(s, t) + (if x.startTime == t then [x] else [])
    decreases |s|
  {
    if s == [] || s[|s| - 1].startTime <= x.startTime {
      StartingAtConcat(s, [x], t);
    } else {
      var init, last := s[..|s| - 1], s[|s| - 1];
      assert s == init + [last];
      InsertStable(init, x, t);
      StartingAtConcat(InsertByStart(init, x), [last], t);
      StartingAtConcat(init, [last], t);
    }
  }

  /**
   * Events that start at the same minute keep their relative order: for every
   * minute, the events starting then appear in the sorted list as they did
   * in the input.
   */
  lemma {:induction false} SortIsStable(s: seq<Event>, t: Minute)
    ensures StartingAt(SortByStart(s), t) == StartingAt(s, t)
    decreases |s|
  {
    if s != [] {
      var init, last := s[..|s| - 1], s[|s| - 1];
      assert s == init + [last];
      SortIsStable(init, t);
      InsertStable(SortByStart(init), last, t);
      StartingAtConcat(init, [last], t);
    }
  }

  lemma StartingAtHead(s: seq<Event>)
    requires s != []
    ensures StartingAt(s, s[0].startTime) == [s[0]] + StartingAt(s[1..], s[0].startTime)
    ensures forall t: Minute :: t != s[0].startTime ==> StartingAt(s, t) == StartingAt(s[1..], t)
  {
  }

  lemma {:induction false} StartingAtNonEmpty(s: seq<Event>, i: nat)
    requires i < |s|
    ensures StartingAt(s, s[i].startTime) != []
    decreases i
  {
    if i > 0 {
      StartingAtNonEmpty(s[1..], i - 1);
    }
  }

  lemma {:induction false} HeadsStartTogether(a: seq<Event>, b: seq<Event>)
    requires a != [] && b != []
    requires SortedByStart(a) && SortedByStart(b)
    requires forall t: Minute :: StartingAt(a, t) == StartingAt(b, t)
    ensures a[0].startTime == b[0].startTime
  {
    var ta, tb := a[0].startTime, b[0].startTime;
    StartingAtNonEmpty(a, 0);
    StartingAtNonEmpty(b, 0);
    assert StartingAt(a, ta) == StartingAt(b, ta);
    assert StartingAt(a, tb) == StartingAt(b, tb);
    StartingAtMembers(b, ta, StartingAt(b, ta)[0]);
    StartingAtMembers(a, tb, StartingAt(a, tb)[0]);
  }

  lemma {:induction false} TailsAgree(a: seq<Event>, b: seq<Event>)
    requires a != [] && b != [] && a[0] == b[0]
    requires forall t: Minute :: StartingAt(a, t) == StartingAt(b, t)
    ensures forall t: Minute :: StartingAt(a[1..], t) == StartingAt(b[1..], t)
  {
    forall t: Minute ensures StartingAt(a[1..], t) == StartingAt(b[1..], t) {
      assert StartingAt(a, t) == StartingAt(b, t);
      if t == a[0].startTime {
        StartingAtHead(a);
        StartingAtHead(b);
        assert StartingAt(a, t)[1..] == StartingAt(a[1..], t);
        assert StartingAt(b, t)[1..] == StartingAt(b[1..], t);
      } else {
        StartingAtHead(a);
        StartingAtHead(b);
      }
    }
  }

  /**
   * Sortedness and stability determine the result: two lists sorted by start
   * time that agree, minute by minute, on the events starting then are equal.
   */
  lemma {:induction false} SortedWithSameGroupsAreEqual(a: seq<Event>, b: seq<Event>)
    requires SortedByStart(a) && SortedByStart(b)
    requires forall t: Minute :: StartingAt(a, t) == StartingAt(b, t)
    ensures a == b
    decreases |a|
  {
    if a == [] {
      if b != [] {
        StartingAtNonEmpty(b, 0);
      }
    } else if b == [] {
      StartingAtNonEmpty(a, 0);
    } else {
      HeadsStartTogether(a, b);
      var t0 := a[0].startTime;
      assert a[0] == b[0] by {
        StartingAtHead(a);
        StartingAtHead(b);
        assert StartingAt(a, t0) == StartingAt(b, t0);
        assert StartingAt(a, t0)[0] == StartingAt(b, t0)[0];
      }
      TailsAgree(a, b);
      assert SortedByStart(a[1..]) && SortedByStart(b[1..]);
      SortedWithSameGroupsAreEqual(a[1..], b[1..]);
      assert a == [a[0]] + a[1..] && b == [b[0]] + b[1..];
    }
  }

  /**
   * Any stable sort of `s` by start time gives `SortByStart(s)`, so the model
   * does not depend on the sorting algorithm the JavaScript engine uses.
   */
  lemma StableSortIsUnique(s: seq<Event>, r: seq<Event>)
    requires SortedByStart(r)
    requires forall t: Minute :: StartingAt(r, t) == StartingAt(s, t)
    ensures r == SortByStart(s)
  {
    SortIsSorted(s);
    forall t: Minute ensures StartingAt(SortByStart(s), t) == StartingAt(r, t) {
      SortIsStable(s, t);
    }
    SortedWithSameGroupsAreEqual(SortByStart(s), r);
  }

  /** Inserting after a prefix that ends no later than `x`, ahead of a suffix that starts later, lands between them. */
  lemma {:induction false} InsertBetween(q: seq<Event>, r: seq<Event>, x: Event)
    requires forall k :: 0 <= k < |r| ==> r[k].startTime > x.startTime
    requires q != [] ==> q[|q| - 1].startTime <= x.startTime
    ensures InsertByStart(q + r, x) == q + [x] + r
    decreases |r|
  {
    if r == [] {
      assert q + r == q;
    } else {
      var r', l := r[..|r| - 1], r[|r| - 1];
      assert q + r == (q + r') + [l];
      assert (q + r)[..|q + r| - 1] == q + r';
      InsertBetween(q, r', x);
      assert q + [x] + r == (q + [x] + r') + [l];
    }
  }

  /** Where the insertion lands, given the first position after which every event starts later. */
  lemma InsertAt(p: seq<Event>, x: Event, j: nat)
    requires j <= |p|
    requires forall k :: j <= k < |p| ==> p[k].startTime > x.startTime
    requires j > 0 ==> p[j - 1].startTime <= x.startTime
    ensures InsertByStart(p, x) == p[..j] + [x] + p[j..]
  {
    assert p == p[..j] + p[j..];
    InsertBetween(p[..j], p[j..], x);
  }

  lemma SortStep(s: seq<Event>, i: nat)
    requires i < |s|
    ensures SortByStart(s[..i + 1]) == InsertByStart(SortByStart(s[..i]), s[i])
  {
    assert s[..i + 1][..i] == s[..i];
  }

  /** The array contents left by one insertion step are the insertion of `x` into `p`. */
  lemma ShiftedIsInsert(r: seq<Event>, p: seq<Event>, x: Event, j: nat)
    requires j <= |p| && |r| == |p| + 1
    requires forall k :: 0 <= k < j ==> r[k] == p[k]
    requires r[j] == x
    requires forall k :: j < k < |r| ==> r[k] == p[k - 1]
    requires forall k :: j <= k < |p| ==> p[k].startTime > x.startTime
    requires j > 0 ==> p[j - 1].startTime <= x.startTime
    ensures r == InsertByStart(p, x)
  {
    var q := p[..j] + [x] + p[j..];
    forall k | 0 <= k < |r| ensures r[k] == q[k] {
      if k < j {
        assert q[k] == p[k];
      } else if k > j {
        assert q[k] == p[k - 1];
      }
    }
    assert r == q;
    InsertAt(p, x, j);
  }

  /**
   * One step of the in-place insertion sort: shifts the events of the sorted
   * prefix `a[..i]` that start later than `a[i]` one place right and drops
   * `a[i]` into the gap.
   */
  method InsertInPlace(a: array<Event>, i: nat)
    requires i < a.Length
    modifies a
    ensures a[..i + 1] == InsertByStart(old(a[..i]), old(a[i]))
    ensures forall k :: i < k < a.Length ==> a[k] == old(a[k])
  {
    var x := a[i];
    ghost var p := a[..i];
    var j := i;
    while j > 0 && a[j - 1].startTime > x.startTime
      invariant 0 <= j <= i
      invariant forall k :: 0 <= k < j ==> a[k] == p[k]
      invariant forall k :: j < k <= i ==> a[k] == p[k - 1]
      invariant forall k :: j <= k < i ==> p[k].startTime > x.startTime
      invariant forall k :: i < k < a.Length ==> a[k] == old(a[k])
    {
      a[j] := a[j - 1];
      j := j - 1;
    }
    a[j] := x;
    ShiftedIsInsert(a[..i + 1], p, x, j);
  }

  /**
   * `[...todayEvents].sort(byStart)`: copies the events into a fresh array and
   * sorts the copy in place by start time, stably.
   */
  method SortedCopy(events: seq<Event>) returns (sorted: seq<Event>)
    ensures sorted == SortByStart(events)
  {
    var a := new Event[|events|](k requires 0 <= k < |events| => events[k]);
    var i := 0;
    while i < a.Length
      invariant 0 <= i <= a.Length
      invariant a[..i] == SortByStart(events[..i])
      invariant forall k :: i <= k < a.Length ==> a[k] == events[k]
    {
      InsertInPlace(a, i);
      SortStep(events, i);
      i := i + 1;
    }
    assert events[..a.Length] == events;
    sorted := a[..];
  }

  /**
   * A day holding 09:00-10:00 rejects 09:30-10:30 and admits 10:00-11:00,
   * and the two admitted events are listed 09:00 first whatever their order
   * in the day's list.
   */
  lemma AdmitThenListScenario(x: Event, z: Event)
    requires x.startTime == 540 && x.endTime == 600
    requires z.startTime == 600 && z.endTime == 660
    ensures EventModal.HasOverlap([x], 570, 630)
    ensures !EventModal.HasOverlap([x], z.startTime, z.endTime)
    ensures SortByStart([x] + [z]) == [x, z] && SortByStart([z, x]) == [x, z]
  {
    assert [x][1..] == [];
    assert SortByStart([x]) == [x] by {
      assert [x][..0] == [];
      assert SortByStart([x]) == InsertByStart(SortByStart([]), x);
    }
    assert SortByStart([z]) == [z] by {
      assert [z][..0] == [];
      assert SortByStart([z]) == InsertByStart(SortByStart([]), z);
    }
    assert SortByStart([x] + [z]) == [x, z] by {
      assert ([x] + [z])[..1] == [x];
      assert SortByStart([x] + [z]) == InsertByStart(SortByStart([x]), z);
    }
    assert SortByStart([z, x]) == [x, z] by {
      assert [z, x][..1] == [z];
      assert SortByStart([z, x]) == InsertByStart(SortByStart([z]), x);
      assert [z][..0] == [];
      assert InsertByStart([z], x) == InsertByStart([], x) + [z];
    }
  }

  /** The sidebar's view of the shared store, and the day it counts as today. */
  class Sidebar {
    var events: Store
    const today: Date

    constructor (today: Date, events: Store)
      ensures this.today == today && this.events == events
    {
      this.today := today;
      this.events := events;
    }

    /** `events[today] || []`. */
    function TodayEvents(): (r: seq<Event>)
      reads this
      ensures today in events ==> r == events[today]
      ensures today !in events ==> r == []
    {
      DayEvents(events, today)
    }

    /** The list the sidebar renders: today's events sorted by start, the store untouched. */
    method SortedEvents() returns (sorted: seq<Event>)
      ensures sorted == SortByStart(TodayEvents())
    {
      sorted := SortedCopy(TodayEvents());
    }

    /** Appends `e` to today's list, creating it when absent; other days keep their lists. */
    method AddEvent(e: Event)
      modifies this
      ensures events == WithAdded(old(events), today, e)
    {
      events := WithAdded(events, today, e);
    }

    /** The sidebar's dialog checks against today's events and adds to today. */
    method SubmitModal(form: EventModal.EventForm, now: int) returns (added: Option<Event>)
      requires form.title != ""
      modifies this, form
      ensures added.Some? ==>
                added.value == Event(now, old(form.title), old(form.startTime), old(form.endTime),
                                     old(form.category), Some(old(form.description)))
                && form.IsReset()
      ensures added == None ==> unchanged(form)
      ensures added == None ==> events == old(events)
      ensures added.Some? ==> events == WithAdded(old(events), today, added.value)
      ensures added.Some? <==> !EventModal.HasOverlap(old(TodayEvents()), old(form.startTime), old(form.endTime))
    {
      added := form.HandleSubmit(TodayEvents(), now);
      if added.Some? {
        AddEvent(added.value);
      }
    }
  }
}
