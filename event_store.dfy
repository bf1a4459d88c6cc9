/**
 * The events store: a map from a day to that day's events, and the
 * copy-then-assign updates the calendar and the sidebar apply to it.
 * Each update copies the map and assigns one day's list.
 */
module EventStore {
  import opened Model

  type Store = map<Date, seq<Event>>

  /** The events of day `k`; a day with no entry reads as an empty list (`events[key] || []`). */
  function DayEvents(s: Store, k: Date): (r: seq<Event>)
    ensures k in s ==> r == s[k]
    ensures k !in s ==> r == []
  {
    if k in s then s[k] else []
  }

  /** The store after appending `e` to day `k`, creating the day when it is absent. */
  function WithAdded(s: Store, k: Date, e: Event): (r: Store)
    ensures r.Keys == s.Keys + {k}
    ensures r[k] == DayEvents(s, k) + [e]
    ensures forall k' :: k' in s && k' != k ==> r[k'] == s[k']
  {
    s[k := DayEvents(s, k) + [e]]
  }

  /** `events.map(x => x.id === e.id ? e : x)`. */
  function ReplaceById(events: seq<Event>, e: Event): (r: seq<Event>)
    ensures |r| == |events|
    ensures forall i :: 0 <= i < |events| ==>
              r[i] == if events[i].id == e.id then e else events[i]
  {
    if events == [] then []
    else [if events[0].id == e.id then e else events[0]] + ReplaceById(events[1..], e)
  }

  /** `events.filter(x => x.id !== id)`. */
  function RemoveById(events: seq<Event>, id: int): (r: seq<Event>)
    ensures IsSubsequence(r, events)
    ensures forall x :: x in r ==> x.id != id
    ensures forall x: Event :: x.id != id ==> multiset(r)[x] == multiset(events)[x]
    ensures (forall i :: 0 <= i < |events| ==> events[i].id != id) ==> r == events
  {
    if events == [] then []
    else
      var rest := RemoveById(events[1..], id);
      assert multiset(events) == multiset{events[0]} + multiset(events[1..]) by {
        assert events == [events[0]] + events[1..];
      }
      if events[0].id == id then rest
      else
        assert multiset([events[0]] + rest) == multiset{events[0]} + multiset(rest);
        [events[0]] + rest
  }

  /** The store after replacing, on day `k`, every event whose id is `e.id` by `e`. */
  function WithEdited(s: Store, k: Date, e: Event): (r: Store)
    requires k in s
    ensures r.Keys == s.Keys
    ensures r[k] == ReplaceById(s[k], e)
    ensures forall k' :: k' in s && k' != k ==> r[k'] == s[k']
  {
    s[k := ReplaceById(s[k], e)]
  }

  /** The store after removing, on day `k`, every event whose id is `id`; the day stays, possibly empty. */
  function WithDeleted(s: Store, k: Date, id: int): (r: Store)
    requires k in s
    ensures r.Keys == s.Keys
    ensures r[k] == RemoveById(s[k], id)
    ensures forall k' :: k' in s && k' != k ==> r[k'] == s[k']
  {
    s[k := RemoveById(s[k], id)]
  }
}
