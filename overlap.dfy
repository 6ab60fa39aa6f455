/** The row count in terms of the events as given, before sorting: the number
    of events covering a day does not depend on their order, so the
    minimal-row result for the sorted sequence carries over to the input. */
module Overlap {
  import opened Events
  import opened Layout
  import opened Optimality

  /** The events of `s` that cover day `d`, in their order in `s`. */
  function Covering(s: seq<Event>, d: Date): seq<Event>
    decreases |s|
  {
    if s == [] then []
    else
      var n := |s| - 1;
      var t := Covering(s[..n], d);
      if s[n].start <= d <= s[n].end then t + [s[n]] else t
  }

  /** The covering indices of `s` are those of all but its last event, plus
      the last index when that event covers the day. */
  lemma ActiveLast(s: seq<Event>, d: Date)
    requires s != []
    ensures var n := |s| - 1;
      Active(s, d) == Active(s[..n], d) + (if s[n].start <= d <= s[n].end then {n} else {})
      && n !in Active(s[..n], d)
  {
    var n := |s| - 1;
    var p := s[..n];
    var last := if s[n].start <= d <= s[n].end then {n} else {};
    forall j
      ensures j in Active(s, d) <==> j in Active(p, d) + last
    {
      if 0 <= j < n {
        assert p[j] == s[j];
      }
    }
  }

  /** Counting the indices that cover a day counts the covering events. */
  lemma {:induction false} ActiveCovering(s: seq<Event>, d: Date)
    ensures |Active(s, d)| == |Covering(s, d)|
    decreases |s|
  {
    if s != [] {
      ActiveCovering(s[..|s| - 1], d);
      ActiveLast(s, d);
    }
  }

  /** The covering events of `s` are the covering events among all of `s`,
      each as often as it occurs. */
  lemma {:induction false} CoveringCount(s: seq<Event>, d: Date, e: Event)
    ensures multiset(Covering(s, d))[e] == if e.start <= d <= e.end then multiset(s)[e] else 0
    decreases |s|
  {
    if s != [] {
      var n := |s| - 1;
      CoveringCount(s[..n], d, e);
      assert s == s[..n] + [s[n]];
    }
  }

  /** Reordering the events does not change how many of them cover a day. */
  lemma ActivePermutes(s: seq<Event>, t: seq<Event>, d: Date)
    requires multiset(s) == multiset(t)
    ensures |Active(s, d)| == |Active(t, d)|
  {
    ActiveCovering(s, d);
    ActiveCovering(t, d);
    forall e
      ensures multiset(Covering(s, d))[e] == multiset(Covering(t, d))[e]
    {
      CoveringCount(s, d, e);
      CoveringCount(t, d, e);
    }
    assert multiset(Covering(s, d)) == multiset(Covering(t, d));
    assert |multiset(Covering(s, d))| == |Covering(s, d)|;
    assert |multiset(Covering(t, d))| == |Covering(t, d)|;
  }

  /** Minimal row count for the layout of `events` as given: when every event
      covers at least one day, the grid has exactly as many rows as the
      largest number of input events covering one day, and none exactly for
      no events. */
  lemma BuildMinimalRows(events: seq<Event>)
    requires forall e :: e in events ==> Proper(e)
    ensures var n := |Build(events).cols|;
      && (forall d :: |Active(events, d)| <= n)
      && (|events| == 0 <==> n == 0)
      && (|events| > 0 ==> exists d :: |Active(events, d)| == n)
  {
    var s := SortByStart(events);
    SortByStartSorted(events);
    SortByStartPermutes(events);
    forall j | 0 <= j < |s|
      ensures Proper(s[j])
    {
      assert s[j] in multiset(events);
    }
    MinimalRows(s);
    forall d
      ensures |Active(events, d)| == |Active(s, d)|
    {
      ActivePermutes(events, s, d);
    }
    if |events| > 0 {
      var d :| |Active(s, d)| == |Run(s, |s|).cols|;
      assert |Active(events, d)| == |Build(events).cols|;
    }
  }
}
