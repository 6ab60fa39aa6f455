/** How many rows the layout uses. In start order the first-fit layout of
    events that each cover at least one day uses exactly as many rows as the
    largest number of events covering one day; an event that ends before it
    starts can still cost a row of its own. */
module Optimality {
  import opened Events
  import opened Layout

  /** The indices of the events of `s` that cover day `d`. */
  ghost function Active(s: seq<Event>, d: Date): set<int>
  {
    set j | 0 <= j < |s| && s[j].start <= d <= s[j].end
  }

  /** The row indices below `m`. */
  ghost function Below(m: nat): (b: set<int>)
    ensures forall r :: r in b <==> 0 <= r < m
    ensures |b| == m
  {
    if m == 0 then {} else Below(m - 1) + {m - 1}
  }

  /** A set mapped one-to-one into `b` is no larger than `b`. */
  lemma {:induction false} InjectiveCard(a: set<int>, f: int -> int, b: set<int>)
    requires forall x :: x in a ==> f(x) in b
    requires forall x, y :: x in a && y in a && x != y ==> f(x) != f(y)
    ensures |a| <= |b|
    decreases a
  {
    if a != {} {
      if forall x :: x !in a { assert false; }
      var x :| x in a;
      InjectiveCard(a - {x}, f, b - {f(x)});
    }
  }

  /** A set that `f` maps onto all of `b` is no smaller than `b`. */
  lemma {:induction false} OntoCard(a: set<int>, f: int -> int, b: set<int>)
    requires forall y :: y in b ==> exists x :: x in a && f(x) == y
    ensures |b| <= |a|
    decreases b
  {
    if b != {} {
      if forall y :: y !in b { assert false; }
      var y :| y in b;
      var x :| x in a && f(x) == y;
      forall y' | y' in b - {y}
        ensures exists x' :: x' in a - {x} && f(x') == y'
      {
        var x' :| x' in a && f(x') == y';
        assert x' in a - {x};
      }
      OntoCard(a - {x}, f, b - {y});
    }
  }

  /** The row count never decreases. */
  lemma {:induction false} RunRowsGrow(s: seq<Event>, j: nat, k: nat)
    requires j <= k <= |s|
    ensures |Run(s, j).cols| <= |Run(s, k).cols|
    decreases k
  {
    if j < k {
      RunRowsGrow(s, j, k - 1);
      PlaceRows(Run(s, k - 1).cols, s[k - 1], ColorOf(k - 1));
    }
  }

  /** Every event is placed in one of the final rows. */
  lemma RowOfBelow(s: seq<Event>, j: nat)
    requires j < |s|
    ensures RowOf(s, j) < |Run(s, |s|).cols|
  {
    PlaceRows(Run(s, j).cols, s[j], ColorOf(j));
    RunRowsGrow(s, j + 1, |s|);
  }

  /** In start order, no day is covered by more events than there are rows:
      events covering one day sit in distinct rows. */
  lemma OverlapAtMostRows(s: seq<Event>, d: Date)
    requires SortedByStart(s)
    ensures |Active(s, d)| <= |Run(s, |s|).cols|
  {
    var n := |s|;
    var a := Active(s, d);
    var m := |Run(s, n).cols|;
    var f := (j: int) => if 0 <= j < n then RowOf(s, j) as int else -1;
    forall j | j in a
      ensures f(j) in Below(m)
    {
      RowOfBelow(s, j);
    }
    forall x, y | x in a && y in a && x != y
      ensures f(x) != f(y)
    {
      if x < y && RowOf(s, x) == RowOf(s, y) {
        RowsDisjoint(s, x, y);
      } else if y < x && RowOf(s, x) == RowOf(s, y) {
        RowsDisjoint(s, y, x);
      }
    }
    InjectiveCard(a, f, Below(m));
  }

  /** The step at which the last row was added: the index of the event
      whose placement made the row count reach its value after `k` events. */
  ghost function LastGrowth(s: seq<Event>, k: nat): (c: nat)
    requires k <= |s|
    ensures 0 < |Run(s, k).cols| ==>
      c < k && |Run(s, c).cols| < |Run(s, c + 1).cols| == |Run(s, k).cols|
    decreases k
  {
    if k == 0 then 0
    else
      PlaceRows(Run(s, k - 1).cols, s[k - 1], ColorOf(k - 1));
      if |Run(s, k - 1).cols| < |Run(s, k).cols| then k - 1 else LastGrowth(s, k - 1)
  }

  /** When the c-th event adds a row, every earlier row has an entry on its
      start day written by an event that covers that day, one per row. */
  lemma GrowthDayOverlap(s: seq<Event>, c: nat)
    requires c < |s| && |Run(s, c).cols| < |Run(s, c + 1).cols| && Proper(s[c])
    ensures |Run(s, c + 1).cols| <= |Active(s, s[c].start)|
  {
    var n, d := |s|, s[c].start;
    var cols := Run(s, c).cols;
    var m := |Run(s, c + 1).cols|;
    PlaceRows(cols, s[c], ColorOf(c));
    RunSound(s, c);
    var f := (j: int) => if 0 <= j < n then RowOf(s, j) as int else -1;
    forall r | r in Below(m)
      ensures exists j :: j in Active(s, d) && f(j) == r
    {
      if r < |cols| {
        assert d in cols[r];
        assert WrittenBy(s, c, r, d);
        var j: nat :| j < c && RowOf(s, j) == r && s[j].start <= d <= s[j].end
                      && cols[r][d] == EntryOf(s, j, d);
        assert j in Active(s, d);
      } else {
        assert c in Active(s, d);
      }
    }
    OntoCard(Active(s, d), f, Below(m));
  }

  /** Minimal row count: in start order, when every event covers at least one
      day, the number of rows is the largest number of events covering a
      single day (zero rows for no events). */
  lemma MinimalRows(s: seq<Event>)
    requires SortedByStart(s) && forall j :: 0 <= j < |s| ==> Proper(s[j])
    ensures forall d :: |Active(s, d)| <= |Run(s, |s|).cols|
    ensures |s| == 0 <==> |Run(s, |s|).cols| == 0
    ensures |s| > 0 ==> exists d :: |Active(s, d)| == |Run(s, |s|).cols|
  {
    var n := |s|;
    forall d
      ensures |Active(s, d)| <= |Run(s, n).cols|
    {
      OverlapAtMostRows(s, d);
    }
    RunRowCount(s, n);
    if n > 0 {
      var c := LastGrowth(s, n);
      GrowthDayOverlap(s, c);
      assert |Active(s, s[c].start)| == |Run(s, n).cols|;
    }
  }

  /** The count is not minimal once an event ends before it starts: a
      one-day event and, on the same start day, an event ending the day
      before take two rows, while no day is covered by more than one event. */
  lemma DegenerateCostsRow()
    ensures var s := [Event("a", 1, 1, Sure), Event("b", 1, 0, Sure)];
      && SortedByStart(s)
      && |Run(s, |s|).cols| == 2
      && Run(s, |s|).cols[1] == map[]
      && forall d :: |Active(s, d)| <= 1
  {
    var s := [Event("a", 1, 1, Sure), Event("b", 1, 0, Sure)];
    assert Span(s[0], ColorOf(0)) == map[1 := RowEntry(true, ColorOf(0), s[0])];
    assert Span(s[1], ColorOf(1)) == map[];
    forall d
      ensures |Active(s, d)| <= 1
    {
      InjectiveCard(Active(s, d), x => 0, {0});
    }
  }
}
