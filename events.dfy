/** The value types of the calendar layout (events, row entries, the colour
    palette) and the stable ordering by start day in which the layout
    processes events. */
module Events {

  /** A calendar day as a day ordinal: the day after `d` is `d + 1`. */
  type Date = int

  datatype Option<T> = None | Some(value: T)

  datatype Certainty = Sure | Possible

  /** A whole-day event covering `start` through `end`, both inclusive.
      Nothing forces `start <= end`. */
  datatype Event = Event(title: string, start: Date, end: Date, certainty: Certainty)

  /** What a row shows on one day: the event, its colour, and whether the
      day is the event's first one. */
  datatype RowEntry = RowEntry(first: bool, color: string, event: Event)

  /** One row (the code calls it a column) of the layout: an ordered map from
      day to the entry shown that day, so at most one entry per day. */
  type Row = map<Date, RowEntry>

  function Max(a: int, b: int): int
  {
    if a < b then b else a
  }

  /** The display palette, cycled over the events in processing order. */
  const COLORS: seq<string> :=
    ["#AAE9E5", "#87C7F1", "#FEB7D3", "#FFEDA9", "#EACFFF", "#DEE6C8", "#A8D0C6"]

  /** The colour the i-th processed event is paired with. */
  function ColorOf(i: nat): string
  {
    COLORS[i % |COLORS|]
  }

  lemma ColorsCycle(i: nat)
    ensures i < 7 ==> ColorOf(i) == COLORS[i]
    ensures ColorOf(i + 7) == ColorOf(i)
    ensures ColorOf(i) in COLORS
  {
  }

  // ---------------------------------------------------------------------
  // Ordering by start day

  ghost predicate SortedByStart(s: seq<Event>)
  {
    forall i, j :: 0 <= i < j < |s| ==> s[i].start <= s[j].start
  }

  /** The events of `s` that start on day `d`, in their order in `s`. */
  function WithStart(s: seq<Event>, d: Date): seq<Event>
  {
    if s == [] then []
    else (if s[0].start == d then [s[0]] else []) + WithStart(s[1..], d)
  }

  /** Inserts `e` in front of the first event that starts no earlier. */
  function InsertByStart(e: Event, s: seq<Event>): seq<Event>
  {
    if s == [] || e.start <= s[0].start then [e] + s
    else [s[0]] + InsertByStart(e, s[1..])
  }

  /** The events ordered by start day, events with equal start keeping their
      relative order: the result of a stable sort keyed by `start`. */
  function SortByStart(s: seq<Event>): seq<Event>
  {
    if s == [] then [] else InsertByStart(s[0], SortByStart(s[1..]))
  }

  lemma {:induction false} InsertByStartPermutes(e: Event, s: seq<Event>)
    ensures multiset(InsertByStart(e, s)) == multiset(s) + multiset{e}
    ensures |InsertByStart(e, s)| == |s| + 1
  {
    if s == [] || e.start <= s[0].start {
    } else {
      InsertByStartPermutes(e, s[1..]);
      assert s == [s[0]] + s[1..];
    }
  }

  lemma {:induction false} InsertByStartSorted(e: Event, s: seq<Event>)
    requires SortedByStart(s)
    ensures SortedByStart(InsertByStart(e, s))
  {
    if s == [] || e.start <= s[0].start {
    } else {
      var rest := InsertByStart(e, s[1..]);
      InsertByStartSorted(e, s[1..]);
      InsertByStartPermutes(e, s[1..]);
      forall x | x in rest
        ensures s[0].start <= x.start
      {
        assert x in multiset(rest);
        if x != e {
          assert x in multiset(s[1..]);
        }
      }
    }
  }

  lemma WithStartCons(x: Event, t: seq<Event>, d: Date)
    ensures WithStart([x] + t, d) == (if x.start == d then [x] else []) + WithStart(t, d)
  {
    assert ([x] + t)[1..] == t;
  }

  lemma {:induction false} InsertByStartStable(e: Event, s: seq<Event>, d: Date)
    ensures WithStart(InsertByStart(e, s), d) == (if e.start == d then [e] else []) + WithStart(s, d)
  {
    if s == [] || e.start <= s[0].start {
      WithStartCons(e, s, d);
    } else {
      InsertByStartStable(e, s[1..], d);
      WithStartCons(s[0], InsertByStart(e, s[1..]), d);
      WithStartCons(s[0], s[1..], d);
      assert s == [s[0]] + s[1..];
    }
  }

  /** Sorting yields events in non-decreasing start order. */
  lemma {:induction false} SortByStartSorted(s: seq<Event>)
    ensures SortedByStart(SortByStart(s))
  {
    if s != [] {
      SortByStartSorted(s[1..]);
      InsertByStartSorted(s[0], SortByStart(s[1..]));
    }
  }

  /** Sorting neither loses nor duplicates an event. */
  lemma {:induction false} SortByStartPermutes(s: seq<Event>)
    ensures multiset(SortByStart(s)) == multiset(s)
    ensures |SortByStart(s)| == |s|
  {
    if s != [] {
      SortByStartPermutes(s[1..]);
      InsertByStartPermutes(s[0], SortByStart(s[1..]));
      assert s == [s[0]] + s[1..];
    }
  }

  /** The sort is stable: for every day, the events starting that day come out
      in the order they went in. */
  lemma {:induction false} SortByStartStable(s: seq<Event>, d: Date)
    ensures WithStart(SortByStart(s), d) == WithStart(s, d)
  {
    if s != [] {
      SortByStartStable(s[1..], d);
      InsertByStartStable(s[0], SortByStart(s[1..]), d);
    }
  }

  lemma WithStartHead(t: seq<Event>)
    requires t != []
    ensures WithStart(t, t[0].start) != []
  {
  }

  /** No event of a sorted sequence starts before its head. */
  lemma {:induction false} WithStartBeforeHead(t: seq<Event>, d: Date)
    requires SortedByStart(t) && t != [] && d < t[0].start
    ensures WithStart(t, d) == []
    decreases |t|
  {
    if |t| > 1 {
      WithStartBeforeHead(t[1..], d);
    }
  }

  /** A sorted sequence is determined by its events of each start day, in
      order: the stable order by start is unique. */
  lemma {:induction false} SortedUnique(t: seq<Event>, u: seq<Event>)
    requires SortedByStart(t) && SortedByStart(u)
    requires forall d :: WithStart(t, d) == WithStart(u, d)
    ensures t == u
    decreases |t|
  {
    if t == [] && u != [] {
      assert false;
    } else if t != [] && u == [] {
      WithStartHead(t);
      assert false;
    } else if t != [] {
      var a, b := t[0].start, u[0].start;
      if a < b {
        WithStartBeforeHead(u, a);
        assert false;
      } else if b < a {
        WithStartBeforeHead(t, b);
        assert false;
      }
      assert WithStart(t, a) == [t[0]] + WithStart(t[1..], a);
      assert WithStart(u, a) == [u[0]] + WithStart(u[1..], a);
      assert t[0] == WithStart(t, a)[0] == u[0];
      assert WithStart(t[1..], a) == WithStart(t, a)[1..] == WithStart(u, a)[1..] == WithStart(u[1..], a);
      forall d
        ensures WithStart(t[1..], d) == WithStart(u[1..], d)
      {
        if d != a {
          assert WithStart(t, d) == WithStart(t[1..], d);
          assert WithStart(u, d) == WithStart(u[1..], d);
        }
      }
      SortedUnique(t[1..], u[1..]);
      assert t == [t[0]] + t[1..];
      assert u == [u[0]] + u[1..];
    }
  }

  /** Idempotence and determinism: two inputs that list the events of each
      start day in the same order sort to the same sequence, whatever the
      order of events with different starts. Sorting a sorted input changes
      nothing. */
  lemma SortByStartDeterministic(a: seq<Event>, b: seq<Event>)
    requires forall d :: WithStart(a, d) == WithStart(b, d)
    ensures SortByStart(a) == SortByStart(b)
    ensures SortedByStart(a) ==> SortByStart(a) == a
  {
    SortByStartSorted(a);
    SortByStartSorted(b);
    forall d
      ensures WithStart(SortByStart(a), d) == WithStart(SortByStart(b), d)
    {
      SortByStartStable(a, d);
      SortByStartStable(b, d);
    }
    SortedUnique(SortByStart(a), SortByStart(b));
    if SortedByStart(a) {
      forall d
        ensures WithStart(SortByStart(a), d) == WithStart(a, d)
      {
        SortByStartStable(a, d);
      }
      SortedUnique(SortByStart(a), a);
    }
  }
}
