/** Ordering of events by date: the comparator and the sort applied
    before every draw. */
module Ordering {
  import opened Events

  /** The comparator as written. Its equality test compares two Date objects
      by reference; two events never share a Date object, so the test never
      holds and events on the same day compare as -1 in both directions. */
  function CompareAsWritten(first: Event, second: Event): (r: int)
    ensures r == 1 <==> first.date > second.date
    ensures r == -1 <==> first.date <= second.date
  {
    if first.date > second.date then 1 else -1
  }

  /** On events of the same day the comparator as written claims each is
      smaller than the other. */
  lemma SameDayComparesLessBothWays(a: Event, b: Event)
    requires a.date == b.date
    ensures CompareAsWritten(a, b) == -1 && CompareAsWritten(b, a) == -1
  {
  }

  /** The comparator as intended: 0 for the same day, 1 when the first is
      later, -1 when it is earlier. */
  function CompareEvents(first: Event, second: Event): (r: int)
    ensures r == 0 <==> first.date == second.date
    ensures r == 1 <==> first.date > second.date
    ensures r == -1 <==> first.date < second.date
  {
    if first.date == second.date then 0
    else if first.date > second.date then 1
    else -1
  }

  /** The intended comparator is antisymmetric and its "not after" relation
      is transitive, as a sort comparator must be. */
  lemma CompareEventsIsConsistent(a: Event, b: Event, c: Event)
    ensures CompareEvents(a, b) == -CompareEvents(b, a)
    ensures CompareEvents(a, b) <= 0 && CompareEvents(b, c) <= 0 ==> CompareEvents(a, c) <= 0
  {
  }

  /** Both comparators agree on whether the first event may come first,
      which is the only question the sort below asks; on a tie they differ
      on whether it must come first. */
  lemma ComparatorsAgreeOnOrder(a: Event, b: Event)
    ensures CompareAsWritten(a, b) <= 0 <==> CompareEvents(a, b) <= 0
    ensures a.date == b.date ==> CompareAsWritten(a, b) < 0 && !(CompareEvents(a, b) < 0)
  {
  }

  /** An order the comparator as written accepts: no event compares below
      an event before it. */
  predicate SortedAsWritten(s: seq<Event>) {
    forall i, j :: 0 <= i < j < |s| ==> CompareAsWritten(s[j], s[i]) >= 0
  }

  /** The comparator as written accepts an order only when the dates strictly
      increase: with two events on one day no order satisfies it, so which
      order a sort leaves them in is up to the sort's own algorithm. */
  lemma SortedAsWrittenIffStrict(s: seq<Event>)
    ensures SortedAsWritten(s) <==> forall i, j :: 0 <= i < j < |s| ==> s[i].date < s[j].date
  {
    if !SortedAsWritten(s) {
      var i, j :| 0 <= i < j < |s| && CompareAsWritten(s[j], s[i]) < 0;
      assert s[j].date <= s[i].date;
    }
  }

  predicate SortedByDate(s: seq<Event>) {
    forall i, j :: 0 <= i < j < |s| ==> s[i].date <= s[j].date
  }

  /** Inserts e before the first element it does not come after. */
  function Insert(e: Event, s: seq<Event>): (r: seq<Event>)
    requires SortedByDate(s)
    ensures SortedByDate(r)
    ensures multiset(r) == multiset(s) + multiset{e}
    ensures r != [] && (r[0] == e || (s != [] && r[0] == s[0]))
  {
    if s == [] || CompareEvents(e, s[0]) <= 0 then [e] + s
    else
      var t := Insert(e, s[1..]);
      assert s == [s[0]] + s[1..];
      [s[0]] + t
  }

  /** The sort applied to the events before every draw, with ties kept in
      their incoming order. */
  function SortByDate(s: seq<Event>): (r: seq<Event>)
    ensures SortedByDate(r)
    ensures multiset(r) == multiset(s)
  {
    if s == [] then []
    else
      assert s == [s[0]] + s[1..];
      Insert(s[0], SortByDate(s[1..]))
  }

  /** Sorting events that are already in date order changes nothing. */
  lemma {:induction false} SortSortedIsIdentity(s: seq<Event>)
    requires SortedByDate(s)
    ensures SortByDate(s) == s
  {
    if s != [] {
      SortSortedIsIdentity(s[1..]);
      assert s == [s[0]] + s[1..];
    }
  }

  /** Sorting twice is sorting once. */
  lemma SortIsIdempotent(s: seq<Event>)
    ensures SortByDate(SortByDate(s)) == SortByDate(s)
  {
    SortSortedIsIdentity(SortByDate(s));
  }

  /** The events of day d, in order. */
  function OnDay(s: seq<Event>, d: int): seq<Event> {
    if s == [] then [] else (if s[0].date == d then [s[0]] else []) + OnDay(s[1..], d)
  }

  lemma OnDayCons(x: Event, s: seq<Event>, d: int)
    ensures OnDay([x] + s, d) == (if x.date == d then [x] else []) + OnDay(s, d)
  {
    assert ([x] + s)[1..] == s;
  }

  lemma {:induction false} InsertOnDay(e: Event, s: seq<Event>, d: int)
    requires SortedByDate(s)
    ensures OnDay(Insert(e, s), d) == (if e.date == d then [e] else []) + OnDay(s, d)
  {
    if s == [] || CompareEvents(e, s[0]) <= 0 {
      OnDayCons(e, s, d);
    } else {
      var rest := Insert(e, s[1..]);
      assert Insert(e, s) == [s[0]] + rest;
      InsertOnDay(e, s[1..], d);
      OnDayCons(s[0], rest, d);
      OnDayCons(s[0], s[1..], d);
      assert s == [s[0]] + s[1..];
    }
  }

  /** The sort is stable: the events of any one day keep their relative order. */
  lemma {:induction false} SortIsStable(s: seq<Event>, d: int)
    ensures OnDay(SortByDate(s), d) == OnDay(s, d)
  {
    if s != [] {
      SortIsStable(s[1..], d);
      InsertOnDay(s[0], SortByDate(s[1..]), d);
    }
  }
}
