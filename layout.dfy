/** The layout as values: which row an event goes to, what it writes there,
    and the grid that results from processing a sequence of events in order.
    The class in module Calendar is proved to compute exactly these values. */
module Layout {
  import opened Events

  /** The state of the layout: the rows and the last day seen so far. */
  datatype Grid = Grid(cols: seq<Row>, lastDay: Option<Date>)

  /** First fit: the index of the first row with no entry on day `d`, or
      `|cols|` (the index a new row would get) when every row has one. */
  function FirstFree(cols: seq<Row>, d: Date): (i: nat)
    ensures i <= |cols|
    ensures forall j :: 0 <= j < i ==> d in cols[j]
    ensures i < |cols| ==> d !in cols[i]
  {
    if cols == [] || d !in cols[0] then 0 else 1 + FirstFree(cols[1..], d)
  }

  /** The entries an event writes on the days before `upto`: one per day
      from `start`, marked first on `start` only. */
  function SpanUpTo(e: Event, color: string, upto: Date): (m: Row)
    decreases upto - e.start
    ensures forall d :: d in m <==> e.start <= d < upto
    ensures forall d :: d in m ==> m[d] == RowEntry(d == e.start, color, e)
  {
    if upto <= e.start then map[]
    else SpanUpTo(e, color, upto - 1)[upto - 1 := RowEntry(upto - 1 == e.start, color, e)]
  }

  /** Writing the entry for day `upto` onto a row extends the span written
      so far by that one day. */
  lemma SpanUpToStep(m: Row, e: Event, color: string, upto: Date)
    requires e.start <= upto
    ensures (m + SpanUpTo(e, color, upto))[upto := RowEntry(upto == e.start, color, e)]
         == m + SpanUpTo(e, color, upto + 1)
  {
  }

  /** The entries an event writes: one per day from `start` through `end`. */
  function Span(e: Event, color: string): Row
  {
    SpanUpTo(e, color, e.end + 1)
  }

  /** The rows after inserting `e`: the first row free on `e.start` (a new,
      empty row appended at the end if there is none) takes the event's span. */
  function Place(cols: seq<Row>, e: Event, color: string): seq<Row>
  {
    var i := FirstFree(cols, e.start);
    var grown := if i == |cols| then cols + [map[]] else cols;
    grown[i := grown[i] + Span(e, color)]
  }

  /** The last day after seeing an event that ends on `end`. */
  function FoldLast(last: Option<Date>, end: Date): (r: Option<Date>)
    ensures r.Some? && end <= r.value
    ensures last.Some? ==> last.value <= r.value
    ensures r.value == end || (last.Some? && r.value == last.value)
  {
    Some(match last case None => end case Some(ld) => Max(ld, end))
  }

  /** The grid after processing the first `k` events of `s` in order, the
      i-th with colour ColorOf(i). */
  function Run(s: seq<Event>, k: nat): Grid
    requires k <= |s|
    decreases k
  {
    if k == 0 then Grid([], None)
    else
      var g := Run(s, k - 1);
      Grid(Place(g.cols, s[k - 1], ColorOf(k - 1)), FoldLast(g.lastDay, s[k - 1].end))
  }

  /** The grid built from `events`: they are processed in stable start
      order, the i-th of them with colour ColorOf(i). */
  function Build(events: seq<Event>): Grid
  {
    var s := SortByStart(events);
    Run(s, |s|)
  }

  /** Building is deterministic: inputs that list the events of each start
      day in the same order give the same grid. */
  lemma BuildDeterministic(a: seq<Event>, b: seq<Event>)
    requires forall d :: WithStart(a, d) == WithStart(b, d)
    ensures Build(a) == Build(b)
  {
    SortByStartDeterministic(a, b);
  }

  /** The row the j-th event of `s` is placed in. */
  function RowOf(s: seq<Event>, j: nat): nat
    requires j < |s|
  {
    FirstFree(Run(s, j).cols, s[j].start)
  }

  /** The entry the j-th event of `s` writes on day `d`. */
  function EntryOf(s: seq<Event>, j: nat, d: Date): RowEntry
    requires j < |s|
  {
    RowEntry(d == s[j].start, ColorOf(j), s[j])
  }

  /** No row has an entry on a day from `lo` on without also having entries on
      every day from `lo` up to it. This holds before each event when events
      come in start order, with `lo` the event's start. */
  ghost predicate Packed(cols: seq<Row>, lo: Date)
  {
    forall i, k, d :: 0 <= i < |cols| && k in cols[i] && lo <= d <= k ==> d in cols[i]
  }

  ghost predicate Proper(e: Event)
  {
    e.start <= e.end
  }

  // ---------------------------------------------------------------------
  // One insertion

  /** First-fit row selection: the rows are kept in order, at most one row is
      added, and one is added exactly when every row has an entry on the
      event's start day; the added row is the chosen one. */
  lemma PlaceRows(cols: seq<Row>, e: Event, color: string)
    ensures var i, r := FirstFree(cols, e.start), Place(cols, e, color);
      && |cols| <= |r| <= |cols| + 1
      && (|r| == |cols| + 1 <==> forall j :: 0 <= j < |cols| ==> e.start in cols[j])
      && i < |r|
      && (forall k :: 0 <= k < |cols| && k != i ==> r[k] == cols[k])
  {
  }

  /** Coverage and first-day marking: the chosen row has, on each day of the
      event, an entry with the event and its colour, marked first exactly on
      the start day; its other days are as before. */
  lemma PlaceCoverage(cols: seq<Row>, e: Event, color: string)
    ensures var i, r := FirstFree(cols, e.start), Place(cols, e, color);
      var old_row := if i < |cols| then cols[i] else map[];
      && i < |r|
      && (forall d :: e.start <= d <= e.end ==> d in r[i] && r[i][d] == RowEntry(d == e.start, color, e))
      && (forall d :: d < e.start || e.end < d ==>
            (d in r[i] <==> d in old_row) && (d in old_row ==> r[i][d] == old_row[d]))
  {
  }

  /** An event that ends before it starts writes nothing: the existing rows
      are unchanged, and a row it causes to be added is empty. */
  lemma PlaceDegenerate(cols: seq<Row>, e: Event, color: string)
    requires e.end < e.start
    ensures var r := Place(cols, e, color);
      && (forall k :: 0 <= k < |cols| ==> r[k] == cols[k])
      && (|r| == |cols| + 1 ==> r[|cols|] == map[])
  {
    assert Span(e, color) == map[];
  }

  /** When the rows are packed from the event's start, the chosen row has no
      entry on any day of the event: inserting never overwrites. */
  lemma PlaceNoOverwrite(cols: seq<Row>, e: Event, color: string)
    requires Packed(cols, e.start)
    ensures var i := FirstFree(cols, e.start);
      i < |cols| ==> forall d :: e.start <= d ==> d !in cols[i]
  {
    var i := FirstFree(cols, e.start);
    if i < |cols| {
      assert e.start !in cols[i];
    }
  }

  /** When the rows are packed from the event's start, every entry already
      in the grid is still there, unchanged, after the insertion. */
  lemma PlaceKeepsEntries(cols: seq<Row>, e: Event, color: string)
    requires Packed(cols, e.start)
    ensures var r := Place(cols, e, color);
      forall k, d :: 0 <= k < |cols| && d in cols[k] ==> d in r[k] && r[k][d] == cols[k][d]
  {
    PlaceNoOverwrite(cols, e, color);
  }

  /** Insertion in start order keeps the rows packed from the new start. */
  lemma PlacePacked(cols: seq<Row>, lo: Date, e: Event, color: string)
    requires Packed(cols, lo) && lo <= e.start
    ensures Packed(Place(cols, e, color), e.start)
  {
    var i, r := FirstFree(cols, e.start), Place(cols, e, color);
    assert Packed(cols, e.start);
    PlaceNoOverwrite(cols, e, color);
    forall k, x, d | 0 <= k < |r| && x in r[k] && e.start <= d <= x
      ensures d in r[k]
    {
      if k == i && x <= e.end {
        assert d in Span(e, color);
      }
    }
  }

  /** Where an entry after an insertion comes from: it is the event's entry
      for one of its days in the chosen row, or it was there before. */
  lemma PlaceEntry(cols: seq<Row>, e: Event, color: string, r: nat, d: Date)
    requires r < |Place(cols, e, color)| && d in Place(cols, e, color)[r]
    ensures var i, p := FirstFree(cols, e.start), Place(cols, e, color);
      || (r == i && e.start <= d <= e.end && p[r][d] == RowEntry(d == e.start, color, e))
      || (r < |cols| && d in cols[r] && p[r][d] == cols[r][d])
  {
    PlaceRows(cols, e, color);
    PlaceCoverage(cols, e, color);
  }

  /** PlaceCoverage for one day. */
  lemma PlaceCovers(cols: seq<Row>, e: Event, color: string, d: Date)
    requires e.start <= d <= e.end
    ensures var i, p := FirstFree(cols, e.start), Place(cols, e, color);
      i < |p| && d in p[i] && p[i][d] == RowEntry(d == e.start, color, e)
  {
    PlaceCoverage(cols, e, color);
  }

  /** PlaceKeepsEntries for one entry. */
  lemma PlaceKeepsEntry(cols: seq<Row>, e: Event, color: string, r: nat, d: Date)
    requires Packed(cols, e.start) && r < |cols| && d in cols[r]
    ensures var p := Place(cols, e, color);
      r < |p| && d in p[r] && p[r][d] == cols[r][d]
  {
    PlaceRows(cols, e, color);
    PlaceKeepsEntries(cols, e, color);
  }

  // ---------------------------------------------------------------------
  // A whole run

  /** The row count grows by at most one per event, and one event already
      makes a row. */
  lemma {:induction false} RunRowCount(s: seq<Event>, k: nat)
    requires k <= |s|
    ensures |Run(s, k).cols| <= k
    ensures k > 0 ==> 1 <= |Run(s, k).cols|
  {
    if k > 0 {
      RunRowCount(s, k - 1);
      PlaceRows(Run(s, k - 1).cols, s[k - 1], ColorOf(k - 1));
    }
  }

  /** The last day is absent exactly when no event was processed, and is
      otherwise the latest end of the processed events, degenerate ones
      included. */
  lemma {:induction false} RunLastDay(s: seq<Event>, k: nat)
    requires k <= |s|
    ensures Run(s, k).lastDay.None? <==> k == 0
    ensures Run(s, k).lastDay.Some? ==>
      && (forall j :: 0 <= j < k ==> s[j].end <= Run(s, k).lastDay.value)
      && (exists j :: 0 <= j < k && s[j].end == Run(s, k).lastDay.value)
  {
    if k > 0 {
      RunLastDay(s, k - 1);
      var v := Run(s, k).lastDay.value;
      if v == s[k - 1].end {
        assert s[k - 1].end == v;
      } else {
        var j :| 0 <= j < k - 1 && s[j].end == v;
      }
    }
  }

  /** In start order, the rows stay packed from the latest start on. */
  lemma {:induction false} RunPacked(s: seq<Event>, k: nat, lo: Date)
    requires SortedByStart(s) && k <= |s|
    requires forall j :: 0 <= j < k ==> s[j].start <= lo
    ensures Packed(Run(s, k).cols, lo)
  {
    if k > 0 {
      RunPacked(s, k - 1, s[k - 1].start);
      PlacePacked(Run(s, k - 1).cols, s[k - 1].start, s[k - 1], ColorOf(k - 1));
    }
  }

  /** In start order, no insertion overwrites: the row chosen for the j-th
      event has no entry yet on any day from the event's start on. */
  lemma RunNeverOverwrites(s: seq<Event>, j: nat)
    requires SortedByStart(s) && j < |s|
    ensures var cols := Run(s, j).cols;
      RowOf(s, j) < |cols| ==> forall d :: s[j].start <= d ==> d !in cols[RowOf(s, j)]
  {
    RunPacked(s, j, s[j].start);
    PlaceNoOverwrite(Run(s, j).cols, s[j], ColorOf(j));
  }

  /** After the first `k` events, day `d` of the j-th event is in that
      event's row, holding the entry the event wrote. */
  ghost predicate CoveredAt(s: seq<Event>, k: nat, j: nat, d: Date)
    requires j < k <= |s|
  {
    && RowOf(s, j) < |Run(s, k).cols|
    && d in Run(s, k).cols[RowOf(s, j)]
    && Run(s, k).cols[RowOf(s, j)][d] == EntryOf(s, j, d)
  }

  ghost predicate Covers(s: seq<Event>, k: nat)
    requires k <= |s|
  {
    forall j: nat, d: Date :: j < k && s[j].start <= d <= s[j].end ==> CoveredAt(s, k, j, d)
  }

  /** In start order, an entry of the grid survives the next insertion. */
  lemma RunKeepsEntry(s: seq<Event>, k: nat, r: nat, d: Date)
    requires SortedByStart(s) && k < |s|
    requires r < |Run(s, k).cols| && d in Run(s, k).cols[r]
    ensures r < |Run(s, k + 1).cols| && d in Run(s, k + 1).cols[r]
    ensures Run(s, k + 1).cols[r][d] == Run(s, k).cols[r][d]
  {
    RunPacked(s, k, s[k].start);
    PlaceKeepsEntry(Run(s, k).cols, s[k], ColorOf(k), r, d);
  }

  /** Coverage for one day of one event: once placed, the entry stays. */
  lemma {:induction false} EventCovered(s: seq<Event>, k: nat, j: nat, d: Date)
    requires SortedByStart(s) && j < k <= |s|
    requires s[j].start <= d <= s[j].end
    ensures CoveredAt(s, k, j, d)
    decreases k
  {
    var e, cols := s[k - 1], Run(s, k - 1).cols;
    if j < k - 1 {
      EventCovered(s, k - 1, j, d);
      RunKeepsEntry(s, k - 1, RowOf(s, j), d);
    } else {
      PlaceCovers(cols, e, ColorOf(k - 1), d);
    }
  }

  /** Coverage, first-day marking and colour cycling: in start order, each
      day of the j-th event ends up in the event's row with the entry that
      event wrote, marked first on the start day and coloured ColorOf(j). */
  lemma RunCoverage(s: seq<Event>, k: nat)
    requires SortedByStart(s) && k <= |s|
    ensures Covers(s, k)
  {
    forall j: nat, d: Date | j < k && s[j].start <= d <= s[j].end
      ensures CoveredAt(s, k, j, d)
    {
      EventCovered(s, k, j, d);
    }
  }

  /** After the first `k` events, the entry on day `d` of row `r` was written
      there by one of them, on one of its days. */
  ghost predicate WrittenBy(s: seq<Event>, k: nat, r: nat, d: Date)
    requires k <= |s|
    requires r < |Run(s, k).cols| && d in Run(s, k).cols[r]
  {
    exists j: nat :: j < k && RowOf(s, j) == r && s[j].start <= d <= s[j].end
                     && Run(s, k).cols[r][d] == EntryOf(s, j, d)
  }

  ghost predicate Sound(s: seq<Event>, k: nat)
    requires k <= |s|
  {
    forall r: nat, d: Date :: r < |Run(s, k).cols| && d in Run(s, k).cols[r] ==> WrittenBy(s, k, r, d)
  }

  /** Soundness for one entry: it was written by the latest event that
      wrote that row and day. */
  lemma {:induction false} EntryWrittenBy(s: seq<Event>, k: nat, r: nat, d: Date)
    requires k <= |s|
    requires r < |Run(s, k).cols| && d in Run(s, k).cols[r]
    ensures WrittenBy(s, k, r, d)
    decreases k
  {
    if k == 0 {
      assert false;
    } else {
      var e, cols := s[k - 1], Run(s, k - 1).cols;
      PlaceEntry(cols, e, ColorOf(k - 1), r, d);
      if r == RowOf(s, k - 1) && e.start <= d <= e.end
         && Run(s, k).cols[r][d] == EntryOf(s, k - 1, d) {
      } else {
        EntryWrittenBy(s, k - 1, r, d);
        var j: nat :| j < k - 1 && RowOf(s, j) == r && s[j].start <= d <= s[j].end
                      && cols[r][d] == EntryOf(s, j, d);
      }
    }
  }

  /** Every entry in the grid was written by an event placed in that row,
      on a day of that event. This needs no ordering of the events. */
  lemma RunSound(s: seq<Event>, k: nat)
    requires k <= |s|
    ensures Sound(s, k)
  {
    forall r: nat, d: Date | r < |Run(s, k).cols| && d in Run(s, k).cols[r]
      ensures WrittenBy(s, k, r, d)
    {
      EntryWrittenBy(s, k, r, d);
    }
  }

  /** The packing invariant in terms of events: in start order, two events
      placed in the same row never share a day. An earlier event that ends
      before it starts ends before the later one starts anyway. */
  lemma RowsDisjoint(s: seq<Event>, j1: nat, j2: nat)
    requires SortedByStart(s) && j1 < j2 < |s|
    requires RowOf(s, j1) == RowOf(s, j2)
    ensures s[j1].end < s[j2].start
  {
    if Proper(s[j1]) {
      RunCoverage(s, j2);
      RunNeverOverwrites(s, j2);
      assert CoveredAt(s, j2, j1, s[j1].end);
    }
  }

  // ---------------------------------------------------------------------
  // Row 0

  /** The index of the first event that covers at least one day, or `|s|`
      when none does. */
  ghost function FirstProper(s: seq<Event>): (p: nat)
    ensures p <= |s|
    ensures forall j :: 0 <= j < p ==> !Proper(s[j])
    ensures p < |s| ==> Proper(s[p])
  {
    if s == [] || Proper(s[0]) then 0 else 1 + FirstProper(s[1..])
  }

  /** While only events that cover no day have been processed, the grid has
      no entry at all. */
  lemma RunEmptyBeforeProper(s: seq<Event>, k: nat)
    requires k <= |s| && forall j :: 0 <= j < k ==> !Proper(s[j])
    ensures forall r, d :: 0 <= r < |Run(s, k).cols| ==> d !in Run(s, k).cols[r]
  {
    RunSound(s, k);
  }

  /** The first event that covers a day goes to row 0. */
  lemma FirstProperInRowZero(s: seq<Event>)
    requires FirstProper(s) < |s|
    ensures RowOf(s, FirstProper(s)) == 0
  {
    RunEmptyBeforeProper(s, FirstProper(s));
  }

  /** The first event that covers a day has its start day in row 0 of the
      finished grid. */
  lemma FirstProperStartInRowZero(s: seq<Event>)
    requires SortedByStart(s) && FirstProper(s) < |s|
    ensures var p, cols := FirstProper(s), Run(s, |s|).cols;
      0 < |cols| && s[p].start in cols[0]
  {
    var p := FirstProper(s);
    FirstProperInRowZero(s);
    EventCovered(s, |s|, p, s[p].start);
  }

  /** In start order, row 0 holds the grid's earliest day: any entry in any
      row lies no earlier than the start of the first event that covers a
      day, and that day is an entry of row 0. */
  lemma RowZeroHoldsEarliest(s: seq<Event>, r: nat, d: Date)
    requires SortedByStart(s)
    requires r < |Run(s, |s|).cols| && d in Run(s, |s|).cols[r]
    ensures var p, cols := FirstProper(s), Run(s, |s|).cols;
      p < |s| && 0 < |cols| && s[p].start in cols[0] && s[p].start <= d
  {
    var n := |s|;
    EntryWrittenBy(s, n, r, d);
    var j: nat :| j < n && RowOf(s, j) == r && s[j].start <= d <= s[j].end
                  && Run(s, n).cols[r][d] == EntryOf(s, j, d);
    assert Proper(s[j]);
    FirstProperStartInRowZero(s);
  }
}
