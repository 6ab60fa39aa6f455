/** The layout engine as an object: a grid of rows built by inserting events
    one at a time, and the day-by-day view of it. Each state-changing method
    is proved to compute the corresponding value of module Layout; the query
    functions read the object's fields. */
module Calendar {
  import opened Events
  import opened Layout
  import opened Query

  class CalendarCols {
    /** The rows of the layout, in creation order. */
    var cols: seq<Row>
    /** The latest end day of the events inserted so far. */
    var lastDay: Option<Date>

    /** An empty layout: no rows and no last day. */
    constructor()
      ensures cols == [] && lastDay == None
    {
      cols := [];
      lastDay := None;
    }

    /** The index of the first row with no entry on `date`; when every row
        has one, a new empty row is appended and its index returned. */
    method FindFreeRow(date: Date) returns (idx: nat)
      modifies this
      ensures idx == FirstFree(old(cols), date)
      ensures cols == if idx < |old(cols)| then old(cols) else old(cols) + [map[]]
      ensures idx < |cols| && date !in cols[idx]
      ensures lastDay == old(lastDay)
    {
      idx := 0;
      while idx < |cols| && date in cols[idx]
        invariant idx <= |cols|
        invariant forall j :: 0 <= j < idx ==> date in cols[j]
      {
        idx := idx + 1;
      }
      if idx == |cols| {
        cols := cols + [map[]];
      }
    }

    /** Writes `event` into the first row free on its start day, one entry
        per day from start through end, and folds its end into the last day. */
    method InsertEventChronological(event: Event, color: string)
      modifies this
      ensures cols == Place(old(cols), event, color)
      ensures lastDay == FoldLast(old(lastDay), event.end)
    {
      var row := FindFreeRow(event.start);
      var entries := cols[row];
      ghost var before := entries;
      var day := event.start;
      var first := true;
      assert entries + SpanUpTo(event, color, day) == entries;
      while day <= event.end
        invariant event.start <= day <= Max(event.start, event.end + 1)
        invariant first == (day == event.start)
        invariant entries == before + SpanUpTo(event, color, day)
        modifies {}
        decreases event.end - day
      {
        SpanUpToStep(before, event, color, day);
        entries := entries[day := RowEntry(first, color, event)];
        first := false;
        day := day + 1;
      }
      assert SpanUpTo(event, color, day) == Span(event, color);
      cols := cols[row := entries];
      lastDay := Some(match lastDay case None => event.end case Some(ld) => Max(ld, event.end));
    }

    /** The layout of `events`: sorted stably by start day, then inserted in
        that order, the i-th with the i-th colour of the cycled palette. */
    static method FromEvents(events: seq<Event>) returns (c: CalendarCols)
      ensures fresh(c)
      ensures c.cols == Build(events).cols && c.lastDay == Build(events).lastDay
    {
      var sorted := SortByStart(events);
      c := new CalendarCols();
      var i := 0;
      while i < |sorted|
        invariant i <= |sorted|
        invariant c.cols == Run(sorted, i).cols && c.lastDay == Run(sorted, i).lastDay
      {
        ghost var g := Run(sorted, i);
        c.InsertEventChronological(sorted[i], ColorOf(i));
        assert Run(sorted, i + 1) == Grid(Place(g.cols, sorted[i], ColorOf(i)), FoldLast(g.lastDay, sorted[i].end));
        i := i + 1;
      }
    }

    /** The number of rows. */
    function NumCols(): nat
      reads this
    {
      |cols|
    }

    /** No view when there is no row, row 0 is empty or no event was seen;
        otherwise one line per day from row 0's earliest day through the
        last day. */
    function MaybeRowIter(): (r: Option<seq<DayRow>>)
      reads this
      ensures r.None? <==> cols == [] || cols[0] == map[] || lastDay.None?
      ensures r.Some? ==>
        var first, last := MinKey(cols[0]), lastDay.value;
        && |r.value| == (if first <= last then last - first + 1 else 0)
        && forall k :: 0 <= k < |r.value| ==> r.value[k] == DayAt(cols, first + k)
    {
      if cols == [] || cols[0] == map[] || lastDay.None? then None
      else Some(DaysFrom(cols, MinKey(cols[0]), lastDay.value))
    }

    /** The view as a list of lines: empty in the cases MaybeRowIter gives
        none; otherwise consecutive days from row 0's earliest day through the
        last day, each line holding one cell per row (the row's entry that
        day, if any) and the number of rows with an entry that day. */
    function Rows(): (rs: seq<DayRow>)
      reads this
      ensures cols == [] || cols[0] == map[] || lastDay.None? ==> rs == []
      ensures !(cols == [] || cols[0] == map[] || lastDay.None?) ==>
        var first, last := MinKey(cols[0]), lastDay.value;
        && |rs| == (if first <= last then last - first + 1 else 0)
        && forall k :: 0 <= k < |rs| ==> rs[k].day == first + k
      ensures forall k :: 0 <= k < |rs| ==>
        && |rs[k].cells| == NumCols()
        && (forall i :: 0 <= i < |cols| ==> rs[k].cells[i] == Get(cols[i], rs[k].day))
        && rs[k].count == |RowsWith(cols, rs[k].day)| <= NumCols()
    {
      match MaybeRowIter()
      case None => []
      case Some(rs) => rs
    }
  }
}
