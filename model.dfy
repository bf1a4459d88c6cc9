/**
 * The values the calendar passes around: events, their categories and
 * times of day, and calendar dates (which double as the store's day keys).
 */
module Model {

  datatype Option<T> = None | Some(value: T)

  /** The three choices of the category selector. */
  datatype Category = Work | Personal | Other

  /**
   * A wall-clock time of day in minutes since midnight: the value an
   * `<input type="time">` field ("HH:MM") denotes.
   */
  type Minute = m: int | 0 <= m < 1440

  /**
   * One calendar event. `id` is the creation timestamp in milliseconds;
   * `description` is optional because events read back from storage need
   * not carry one.
   */
  datatype Event = Event(
    id: int,
    title: string,
    startTime: Minute,
    endTime: Minute,
    category: Category,
    description: Option<string>)

  /**
   * A calendar day in the proleptic Gregorian calendar. `month` counts from
   * 0 (January) to 11 (December), as JavaScript's `Date.getMonth` does.
   * A date is also the key under which the store files that day's events
   * (the source formats it as "yyyy-MM-dd", which is one-to-one on dates).
   */
  datatype Date = Date(year: int, month: int, day: int)

  /** `a` is an order-preserving subsequence of `b`. */
  predicate IsSubsequence<T(==)>(a: seq<T>, b: seq<T>)
    decreases |b|
  {
    if a == [] then true
    else if b == [] then false
    else (a[0] == b[0] && IsSubsequence(a[1..], b[1..])) || IsSubsequence(a, b[1..])
  }

  lemma {:induction false} SubsequenceMembers<T>(a: seq<T>, b: seq<T>)
    requires IsSubsequence(a, b)
    ensures forall x :: x in a ==> x in b
    decreases |b|
  {
    if a != [] && b != [] {
      if a[0] == b[0] && IsSubsequence(a[1..], b[1..]) {
        SubsequenceMembers(a[1..], b[1..]);
        assert a == [a[0]] + a[1..];
      } else {
        SubsequenceMembers(a, b[1..]);
      }
    }
  }
}
