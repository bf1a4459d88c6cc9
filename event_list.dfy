/**
 * The day's event list panel: the search box filters the day's events by a
 * case-insensitive substring match on the title or the description.
 */
module EventList {
  import opened Model

  /** ASCII lower-casing of one character (`toLowerCase` on the ASCII range). */
  function LowerChar(c: char): char {
    if 'A' <= c <= 'Z' then (c as int + 32) as char else c
  }

  function UpperChar(c: char): char {
    if 'a' <= c <= 'z' then (c as int - 32) as char else c
  }

  /** `toLowerCase()`: every character lower-cased on its own. */
  function Lower(s: string): (r: string)
    ensures |r| == |s|
    ensures forall i :: 0 <= i < |r| ==> !('A' <= r[i] <= 'Z')
  {
    seq(|s|, i requires 0 <= i < |s| => LowerChar(s[i]))
  }

  function Upper(s: string): (r: string)
    ensures |r| == |s|
  {
    seq(|s|, i requires 0 <= i < |s| => UpperChar(s[i]))
  }

  /** `s.includes(sub)`: `sub` occurs in `s` at some position. */
  predicate Contains(s: string, sub: string)
    ensures Contains(s, sub) <==> exists i :: 0 <= i <= |s| && sub <= s[i..]
    decreases |s|
  {
    assert s[0..] == s;
    if s == [] then sub <= s
    else
      DropOfTail(s);
      sub <= s || Contains(s[1..], sub)
  }

  /** A suffix of the tail is a suffix of the whole string, one position further on. */
  lemma DropOfTail(s: string)
    requires s != []
    ensures forall i :: 1 <= i <= |s| ==> s[i..] == s[1..][i - 1..]
  {
  }

  /**
   * The filter's test: the lower-cased title contains the lower-cased term,
   * or a description is present and its lower-cased form contains it.
   */
  predicate Matches(e: Event, term: string)
    ensures Matches(e, term) ==>
              |term| <= |e.title| || (e.description.Some? && |term| <= |e.description.value|)
  {
    Contains(Lower(e.title), Lower(term))
    || (e.description.Some? && Contains(Lower(e.description.value), Lower(term)))
  }

  /** `events.filter(...)`: the events that match `term`, in their order. */
  function Filter(events: seq<Event>, term: string): (r: seq<Event>)
    ensures IsSubsequence(r, events)
    ensures forall x :: x in r ==> Matches(x, term)
    ensures forall x :: Matches(x, term) ==> multiset(r)[x] == multiset(events)[x]
  {
    if events == [] then []
    else
      assert events == [events[0]] + events[1..];
      if Matches(events[0], term) then [events[0]] + Filter(events[1..], term)
      else Filter(events[1..], term)
  }

  /** An empty search term keeps every event. */
  lemma {:induction false} EmptyTermKeepsAll(events: seq<Event>)
    ensures Filter(events, "") == events
  {
    if events != [] {
      EmptyTermKeepsAll(events[1..]);
    }
  }

  /** An event without a description is kept exactly when its title matches. */
  lemma AbsentDescriptionByTitle(e: Event, term: string)
    requires e.description == None
    ensures Matches(e, term) <==> Contains(Lower(e.title), Lower(term))
  {
  }

  lemma LowerOfUpper(s: string)
    ensures Lower(Upper(s)) == Lower(s)
  {
  }

  /** The filter sees the term only through its lower-cased form. */
  lemma {:induction false} FilterDependsOnLowerTerm(events: seq<Event>, t1: string, t2: string)
    requires Lower(t1) == Lower(t2)
    ensures Filter(events, t1) == Filter(events, t2)
  {
    if events != [] {
      FilterDependsOnLowerTerm(events[1..], t1, t2);
    }
  }

  /** Searching for a term or for its upper-case form gives the same list. */
  lemma UpperTermSameResult(events: seq<Event>, term: string)
    ensures Filter(events, Upper(term)) == Filter(events, term)
  {
    LowerOfUpper(term);
    FilterDependsOnLowerTerm(events, Upper(term), term);
  }

  lemma PrefixIsContained(sub: string, rest: string)
    ensures Contains(sub + rest, sub)
  {
    assert sub <= sub + rest;
  }

  lemma TeamSyncMatches(a: Event)
    requires a.title == "Team sync"
    ensures Matches(a, "TEAM")
  {
    var t, q := Lower(a.title), Lower("TEAM");
    assert t == "team sync" by { assert Lower("Team sync") == "team sync"; }
    assert q == "team";
    assert t == q + " sync";
    PrefixIsContained(q, " sync");
  }

  lemma TeamLunchMatches(b: Event)
    requires b.description == Some("team lunch")
    ensures Matches(b, "TEAM")
  {
    var t, q := Lower(b.description.value), Lower("TEAM");
    assert t == "team lunch" by { assert Lower("team lunch") == "team lunch"; }
    assert q == "team";
    assert t == q + " lunch";
    PrefixIsContained(q, " lunch");
  }

  /** A string shorter than the term cannot contain it. */
  lemma {:induction false} ShorterNotContained(s: string, sub: string)
    requires |s| < |sub|
    ensures !Contains(s, sub)
  {
    if s != [] {
      ShorterNotContained(s[1..], sub);
    }
  }

  lemma GymDoesNotMatch(c: Event)
    requires c.title == "Gym" && c.description == Some("legs")
    ensures !Matches(c, "TEAM")
  {
    assert Lower(c.title) == "gym" by { assert Lower("Gym") == "gym"; }
    assert Lower(c.description.value) == "legs" by { assert Lower("legs") == "legs"; }
    assert Lower("TEAM") == "team";
    ShorterNotContained("gym", "team");
    var legs := "legs";
    assert !("team" <= legs) by { assert legs[0] != 't'; }
    ShorterNotContained(legs[1..], "team");
  }

  /** "TEAM" finds "Team sync" by its title and "team lunch" by its description, and skips an unrelated event. */
  lemma TeamExample(a: Event, b: Event, c: Event)
    requires a.title == "Team sync" && a.description == None
    requires b.title == "Lunch" && b.description == Some("team lunch")
    requires c.title == "Gym" && c.description == Some("legs")
    ensures Filter([a, b, c], "TEAM") == [a, b]
  {
    TeamSyncMatches(a);
    TeamLunchMatches(b);
    GymDoesNotMatch(c);
    FilterThree(a, b, c, "TEAM");
  }

  lemma FilterThree(a: Event, b: Event, c: Event, term: string)
    requires Matches(a, term) && Matches(b, term) && !Matches(c, term)
    ensures Filter([a, b, c], term) == [a, b]
  {
    assert Filter([c], term) == [] by {
      assert [c][1..] == [];
    }
    assert Filter([b, c], term) == [b] by {
      assert [b, c][1..] == [c];
    }
    assert [a, b, c][1..] == [b, c];
  }
}
