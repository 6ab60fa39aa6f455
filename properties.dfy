/** What the day-by-day view of a layout built from a list of events shows:
    every day of every event, in the event's row, and nothing else; and no
    view at all exactly when no event covers a day. */
module Properties {
  import opened Events
  import opened Layout
  import opened Query
  import opened Calendar

  /** `c` holds the layout built from `events`. */
  ghost predicate Built(c: CalendarCols, events: seq<Event>)
    reads c
  {
    c.cols == Build(events).cols && c.lastDay == Build(events).lastDay
  }

  /** Line `k` of the view `rs` is day `d` and shows `x` in row `r`. */
  ghost predicate ShowsAt(rs: seq<DayRow>, k: int, d: Date, r: nat, x: RowEntry)
  {
    0 <= k < |rs| && rs[k].day == d && r < |rs[k].cells| && rs[k].cells[r] == Some(x)
  }

  /** Every day of every event appears in the view, in the event's row, with
      the entry the event wrote: its colour, and the first-day mark on its
      start day only. */
  lemma RowsShowEvents(c: CalendarCols, events: seq<Event>, j: nat, d: Date)
    requires Built(c, events)
    requires j < |SortByStart(events)|
    requires SortByStart(events)[j].start <= d <= SortByStart(events)[j].end
    ensures var s := SortByStart(events);
      exists k :: ShowsAt(c.Rows(), k, d, RowOf(s, j), EntryOf(s, j, d))
  {
    var s := SortByStart(events);
    var n := |s|;
    SortByStartSorted(events);
    RunCoverage(s, n);
    assert CoveredAt(s, n, j, d);
    var r := RowOf(s, j);
    RowZeroHoldsEarliest(s, r, d);
    RunLastDay(s, n);
    var first := MinKey(c.cols[0]);
    var k := d - first;
    assert c.Rows()[k].day == d;
    assert ShowsAt(c.Rows(), k, d, r, EntryOf(s, j, d));
  }

  /** Every entry the view shows is the grid's entry for that row and day,
      and was written there by an event placed in that row, on a day of
      that event. */
  lemma RowsShowOnlyEvents(c: CalendarCols, events: seq<Event>, k: nat, r: nat)
    requires Built(c, events)
    requires k < |c.Rows()| && r < |c.Rows()[k].cells| && c.Rows()[k].cells[r].Some?
    ensures var s, d := SortByStart(events), c.Rows()[k].day;
      && r < |Run(s, |s|).cols| && d in Run(s, |s|).cols[r]
      && c.Rows()[k].cells[r] == Some(Run(s, |s|).cols[r][d])
      && WrittenBy(s, |s|, r, d)
  {
    var s := SortByStart(events);
    var line := c.Rows()[k];
    var d := line.day;
    assert r < |c.cols| && line.cells[r] == Get(c.cols[r], d);
    RunSound(s, |s|);
  }

  /** When some event covers a day, the view is not empty. */
  lemma RowsNonEmpty(c: CalendarCols, events: seq<Event>)
    requires Built(c, events)
    requires FirstProper(SortByStart(events)) < |SortByStart(events)|
    ensures c.Rows() != []
  {
    var s := SortByStart(events);
    var p := FirstProper(s);
    SortByStartSorted(events);
    FirstProperStartInRowZero(s);
    RunLastDay(s, |s|);
    assert MinKey(c.cols[0]) <= s[p].start <= s[p].end <= c.lastDay.value;
  }

  /** When no event covers a day, row 0 is empty and so is the view. */
  lemma RowsNone(c: CalendarCols, events: seq<Event>)
    requires Built(c, events)
    requires FirstProper(SortByStart(events)) == |SortByStart(events)|
    ensures c.Rows() == []
  {
    var s := SortByStart(events);
    RunEmptyBeforeProper(s, |s|);
    if c.cols != [] && c.cols[0] != map[] {
      var m := MinKey(c.cols[0]);
      assert false;
    }
  }

  /** The view is empty exactly when no event covers a day (every event
      ends before it starts), the empty list of events included. */
  lemma RowsEmpty(c: CalendarCols, events: seq<Event>)
    requires Built(c, events)
    ensures c.Rows() == [] <==> forall e :: e in events ==> e.end < e.start
  {
    var s := SortByStart(events);
    var n := |s|;
    SortByStartPermutes(events);
    var p := FirstProper(s);
    if p < n {
      RowsNonEmpty(c, events);
      assert s[p] in multiset(events);
    } else {
      RowsNone(c, events);
      forall e | e in events
        ensures e.end < e.start
      {
        assert e in multiset(s);
        var i :| 0 <= i < n && s[i] == e;
      }
    }
  }

  // ---------------------------------------------------------------------
  // A worked example: A on days 1-3, B on days 2-4, C on day 1 only.

  const EvA := Event("A", 1, 3, Sure)
  const EvB := Event("B", 2, 4, Sure)
  const EvC := Event("C", 1, 1, Sure)
  const FirstA := RowEntry(true, COLORS[0], EvA)
  const NextA := RowEntry(false, COLORS[0], EvA)
  const FirstB := RowEntry(true, COLORS[2], EvB)
  const NextB := RowEntry(false, COLORS[2], EvB)
  const FirstC := RowEntry(true, COLORS[1], EvC)

  /** Sorted, the events are A, C, B: C keeps its place after A, which
      starts the same day. */
  lemma ThreeEventsSorted()
    ensures SortByStart([EvA, EvB, EvC]) == [EvA, EvC, EvB]
  {
    assert SortByStart([EvC]) == [EvC];
    assert SortByStart([EvB, EvC]) == InsertByStart(EvB, [EvC]) == [EvC, EvB];
  }

  /** A fills row 0 with the first colour. */
  lemma ThreeEventsStep1()
    ensures Run([EvA, EvC, EvB], 1) == Grid([map[1 := FirstA, 2 := NextA, 3 := NextA]], Some(3))
  {
    var ra := map[1 := FirstA, 2 := NextA, 3 := NextA];
    assert Span(EvA, ColorOf(0)) == ra;
    assert map[] + ra == ra;
  }

  /** C finds row 0 taken on day 1 and opens row 1 with the second colour. */
  lemma ThreeEventsStep2()
    ensures Run([EvA, EvC, EvB], 2) == Grid(
      [map[1 := FirstA, 2 := NextA, 3 := NextA], map[1 := FirstC]], Some(3))
  {
    ThreeEventsStep1();
    var ra, rc := map[1 := FirstA, 2 := NextA, 3 := NextA], map[1 := FirstC];
    assert Span(EvC, ColorOf(1)) == rc;
    assert map[] + rc == rc;
    assert FirstFree([ra], 1) == 1;
  }

  /** B finds row 0 taken on day 2 but row 1 free, and takes the third
      colour. */
  lemma ThreeEventsGrid()
    ensures Build([EvA, EvB, EvC]) == Grid(
      [map[1 := FirstA, 2 := NextA, 3 := NextA],
       map[1 := FirstC, 2 := FirstB, 3 := NextB, 4 := NextB]],
      Some(4))
  {
    ThreeEventsSorted();
    ThreeEventsStep2();
    var ra, rc := map[1 := FirstA, 2 := NextA, 3 := NextA], map[1 := FirstC];
    var rb := map[1 := FirstC, 2 := FirstB, 3 := NextB, 4 := NextB];
    assert Span(EvB, ColorOf(2)) == map[2 := FirstB, 3 := NextB, 4 := NextB];
    assert FirstFree([ra, rc], 2) == 1;
    assert rc + Span(EvB, ColorOf(2)) == rb;
  }

  /** The lines of the example's view, day by day. */
  lemma ThreeEventsDays(cols: seq<Row>)
    requires cols == [map[1 := FirstA, 2 := NextA, 3 := NextA],
                      map[1 := FirstC, 2 := FirstB, 3 := NextB, 4 := NextB]]
    ensures DaysFrom(cols, 1, 4) == [
      DayRow(1, 2, [Some(FirstA), Some(FirstC)]),
      DayRow(2, 2, [Some(NextA), Some(FirstB)]),
      DayRow(3, 2, [Some(NextA), Some(NextB)]),
      DayRow(4, 1, [None, Some(NextB)])]
  {
    assert cols[..1] == [cols[0]] && [cols[0]][..0] == [];
    assert Count([cols[0]], 1) == 1 && Count([cols[0]], 2) == 1;
    assert Count([cols[0]], 3) == 1 && Count([cols[0]], 4) == 0;
    assert Count(cols, 1) == 2 && Count(cols, 2) == 2 && Count(cols, 3) == 2 && Count(cols, 4) == 1;
    assert DayAt(cols, 1) == DayRow(1, 2, [Some(FirstA), Some(FirstC)]);
    assert DayAt(cols, 2) == DayRow(2, 2, [Some(NextA), Some(FirstB)]);
    assert DayAt(cols, 3) == DayRow(3, 2, [Some(NextA), Some(NextB)]);
    assert DayAt(cols, 4) == DayRow(4, 1, [None, Some(NextB)]);
  }

  /** The example end to end: two rows, and four lines in the view. */
  lemma ThreeEvents(c: CalendarCols)
    requires Built(c, [EvA, EvB, EvC])
    ensures c.NumCols() == 2
    ensures c.Rows() == [
      DayRow(1, 2, [Some(FirstA), Some(FirstC)]),
      DayRow(2, 2, [Some(NextA), Some(FirstB)]),
      DayRow(3, 2, [Some(NextA), Some(NextB)]),
      DayRow(4, 1, [None, Some(NextB)])]
  {
    ThreeEventsGrid();
    ThreeEventsDays(c.cols);
    assert 1 in c.cols[0];
    assert MinKey(c.cols[0]) == 1;
  }
}
