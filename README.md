# groupcal layout engine in Dafny

groupcal turns a list of whole-day events into a calendar grid that is
rendered as HTML. Its core is `CalendarCols` in `src/main.rs`:

- Construction (`from_events`, `insert_event_chronological`,
  `find_free_row`) sorts the events stably by start day. It gives the i-th
  event colour `COLORS[i % 7]`.
- Each event then goes into the first row (the code calls rows "cols") that
  has no entry on the event's start day. A new, empty row is appended when
  every row has one.
- The event writes one `RowEntry` per day from start through end,
  inclusive. `first` is set only on the start day.
- The event's end is folded into `last_day` with `max`.
- The query (`maybe_row_iter`, `rows`, `num_cols`) lists every day from the
  earliest key of row 0 through `last_day`. Each line holds the number of
  rows with an entry that day and one optional entry per row.

The model has seven modules:

- `Events`: the value types (`Event`, `Certainty`, `RowEntry`, a row as
  `map<Date, RowEntry>`) and the `COLORS` palette. `Date` is an integer day
  ordinal, so the day after `d` is `d + 1`. It also holds the stable sort by
  start day as a pure insertion sort, `SortByStart`. Its lemmas prove it
  sorted, a permutation, stable, and the unique stable order.
- `Layout`: construction as values. `FirstFree` selects the row and `Place`
  performs one insertion. `FoldLast` updates the last day, and `Run`/`Build`
  process a whole sequence. The lemmas cover first-fit selection, coverage,
  first-day marking, the degenerate range, no overwriting in start order,
  soundness of every entry, and the role of row 0.
- `Query`: the pieces of one line of the view (`Cells`, `Count`, `DayAt`),
  the walk over consecutive days (`DaysThrough`), their lines (`DaysFrom`)
  and the earliest key of a row (`MinKey`).
- `Calendar`: the class `CalendarCols`, with fields `cols` and `lastDay`:
  - `FindFreeRow`, `InsertEventChronological` and the static `FromEvents`
    are imperative methods with loops. Each is proved to produce the state
    given by `FirstFree`, `Place` and `Build`.
  - `MaybeRowIter`, `Rows` and `NumCols` are functions that read the
    object.
- `Properties`: what the view of a built layout shows:
  - every day of every event, in that event's row;
  - nothing that no event wrote;
  - no line at all exactly when no event covers a day.

  It ends with a worked example of three events.
- `Optimality`: the row count. When every event covers a day, the grid uses
  exactly as many rows as the largest number of events covering a single
  day.
- `Overlap`: the same row count stated for the events as given, before
  sorting, since reordering does not change how many events cover a day.

Two consequences of the code are worth stating:

- An event that ends before it starts still takes a new row when every row
  is busy on its start day. The row is empty when it is added, and stays
  empty only if no later event is placed in it. So the row count can exceed
  the largest overlap (`Optimality.DegenerateCostsRow` shows such a case),
  and `Optimality.MinimalRows` needs every event to cover at least one day.
- Because only the start day is probed, one might expect two overlapping
  events to share a row. Under the start order that `from_events`
  establishes they cannot (`Layout.RunNeverOverwrites`,
  `Layout.RowsDisjoint`).

## Model

| member | source | states |
|---|---|---|
| Events.ColorOf | src/main.rs:57 | No contract of its own: the colour of the i-th sorted event, `COLORS[i % 7]`. ColorsCycle states its period, and RunCoverage shows it is the colour each event's entries carry. |
| Events.ColorsCycle | src/main.rs:10-12 | The i-th colour is `COLORS[i]` for i < 7. The colours repeat with period 7 and are always palette entries. |
| Events.SortByStart | src/main.rs:59 | No contract of its own: the stable sort by start day. SortByStartSorted, SortByStartPermutes, SortByStartStable and SortedUnique characterise it. |
| Events.SortByStartSorted | src/main.rs:59 | The sorted events are in non-decreasing start order. |
| Events.SortByStartPermutes | src/main.rs:59 | Sorting keeps the same multiset of events and the same length. |
| Events.SortByStartStable | src/main.rs:59 | For every day, the events that start on it come out in their input order (the sort is stable). |
| Events.SortedUnique | src/main.rs:59 | Two start-sorted sequences with the same per-day subsequences are equal, so the stable order is unique. |
| Events.SortByStartDeterministic | src/main.rs:59 | Inputs that agree on each day's events, in order, sort to the same sequence. Sorting an already sorted input changes nothing. |
| Layout.FirstFree | src/main.rs:97-103 | The index is at most the row count. Every earlier row has an entry on the day. The row at the index, if it exists, has none. |
| Layout.SpanUpTo | src/main.rs:74-87 | The entries written before a day are exactly the days from the start up to it. Each carries the event and colour, marked first only on the start day. |
| Layout.Span | src/main.rs:74-87 | No contract of its own: the entries one event writes to its row. SpanUpTo, PlaceCoverage and RunCoverage state them. |
| Layout.RowOf | src/main.rs:73 | No contract of its own: the row chosen for the j-th sorted event. RunCoverage, RunSound, RowsDisjoint and FirstProperInRowZero state what it means. |
| Layout.EntryOf | src/main.rs:80-84 | No contract of its own: the entry the j-th sorted event writes on a day, marked first only on its start day. PlaceCoverage, RunCoverage and Properties.RowsShowEvents state it. |
| Events.Max | src/main.rs:91 | No contract of its own: the larger of two days. FoldLast states the result it gives. |
| Layout.FoldLast | src/main.rs:89-93 | The new last day is present, at least the end and at least the old last day. It equals one of the two. |
| Layout.Place | src/main.rs:72-94 | No contract of its own: one insertion. PlaceRows, PlaceCoverage, PlaceDegenerate, PlaceNoOverwrite, PlaceKeepsEntries and PlacePacked characterise it. InsertEventChronological is proved to compute it. |
| Layout.PlaceRows | src/main.rs:96-110 | At most one row is added, exactly when every row has an entry on the start day. The chosen row is in range and no other row changes. |
| Layout.PlaceCoverage | src/main.rs:73-87 | The chosen row has the event's entry on each of its days, marked first exactly on the start day. Its other days are as before. |
| Layout.PlaceDegenerate | src/main.rs:74-87 | An event ending before its start changes no existing row. A row it causes to be added is empty. |
| Layout.PlaceNoOverwrite | src/main.rs:78-85 | When rows are packed from the start day, the chosen row has no entry on any day from the start on, so the inserts never overwrite. |
| Layout.PlaceKeepsEntries | src/main.rs:78-85 | When rows are packed from the start day, every existing entry survives the insertion unchanged. |
| Layout.PlacePacked | src/main.rs:72-87 | Inserting an event whose start is at least the packing bound leaves the rows packed from its start. |
| Layout.Run | src/main.rs:65-67 | No contract of its own: the grid after the first k sorted events. RunRowCount, RunLastDay, RunPacked, RunNeverOverwrites, RunCoverage and RunSound characterise it. |
| Layout.Build | src/main.rs:56-70 | No contract of its own: `Run` over the whole sorted input. BuildDeterministic, Overlap.BuildMinimalRows and the Properties lemmas characterise it. FromEvents is proved to compute it. |
| Layout.RunRowCount | src/main.rs:104-109 | After k events there are at most k rows, and at least one once an event is processed. |
| Layout.RunLastDay | src/main.rs:89-93 | The last day is absent exactly when no event was processed. Otherwise it is the largest end, degenerate events included, and some event ends on it. |
| Layout.RunPacked | src/main.rs:59-87 | In start order, the rows stay packed from the latest start. |
| Layout.RunNeverOverwrites | src/main.rs:59-87 | In start order, the row chosen for each event has no entry on any day from its start. |
| Layout.RunCoverage | src/main.rs:65-87 | In start order, each day of each event is in that event's row, with its colour `ColorOf(j)` and the first-day mark. |
| Layout.RunSound | src/main.rs:65-87 | Every entry was written by an event placed in that row, on one of its days, with that event's entry. |
| Layout.RowsDisjoint | src/main.rs:97-103 | In start order, two events placed in the same row never share a day. This holds for every pair in one row, including an event that ends before it starts. |
| Layout.BuildDeterministic | src/main.rs:56-70 | Inputs that agree on each day's events, in order, build the same grid. |
| Layout.RunEmptyBeforeProper | src/main.rs:74-87 | While only events that cover no day have been processed, the grid has no entry. |
| Layout.FirstProperInRowZero | src/main.rs:97-107 | The first event that covers a day is placed in row 0. |
| Layout.FirstProperStartInRowZero | src/main.rs:115 | In start order, row 0 of the finished grid has an entry on that event's start day. |
| Layout.RowZeroHoldsEarliest | src/main.rs:115-121 | In start order, no entry in any row is earlier than a day held by row 0. |
| Query.Get | src/main.rs:128 | No contract of its own: a row's entry on a day, if any (`BTreeMap::get`). Cells and Rows state the cells in terms of it. |
| Query.Cells | src/main.rs:128 | One cell per row, the i-th being row i's entry on the day, if any. |
| Query.Count | src/main.rs:123-127 | The count is the number of rows with an entry on the day, so at most the row count. |
| Query.DayAt | src/main.rs:122-129 | No contract of its own: the `(day, count, cells)` line for one day. Cells and Count characterise its parts, and DaysFrom and MaybeRowIter are stated in terms of it. |
| Query.DaysThrough | src/main.rs:120-121 | The days from the first day, one at a time, while they are no later than the last day. There are `last - from + 1` of them, none when the last day is earlier, and the k-th is `from + k`. Proved by recursion. |
| Query.DaysFrom | src/main.rs:118-130 | Maps the day walk of DaysThrough to lines. One line per day from the first day through the last, ascending, and line k is the line of day `from + k`. The result is empty when the last day is earlier. |
| Query.MinKey | src/main.rs:115 | The result is a key of the non-empty row, no later than any other key. |
| Calendar.CalendarCols.constructor | src/main.rs:61-64 | New layout: no rows, no last day. |
| Calendar.CalendarCols.FindFreeRow | src/main.rs:96-110 | Returns the first free row's index. It appends one empty row exactly when none is free, and the returned row lacks the day. The last day is unchanged. |
| Calendar.CalendarCols.InsertEventChronological | src/main.rs:72-94 | The rows become `Place(old rows, event, colour)`. The last day becomes `FoldLast(old last day, end)`. |
| Calendar.CalendarCols.FromEvents | src/main.rs:56-70 | A fresh object holding `Build(events)`. |
| Calendar.CalendarCols.MaybeRowIter | src/main.rs:112-132 | None exactly when there is no row, row 0 is empty or there is no last day. Otherwise the lines of the days from row 0's earliest key through the last day. |
| Calendar.CalendarCols.NumCols | src/main.rs:138-140 | No contract of its own: the number of rows. Rows states that every line has `NumCols()` cells and a count of at most `NumCols()`, and ThreeEvents fixes it for the example. |
| Calendar.CalendarCols.Rows | src/main.rs:134-136 | Empty in the cases MaybeRowIter gives none. Otherwise lines for consecutive ascending days from row 0's earliest key through the last day. Each line has `NumCols()` cells, cell i is row i's entry, and the count is the number of rows with an entry, at most `NumCols()`. |
| Properties.RowsShowEvents | src/main.rs:56-136 | In the view of `from_events`, every day of every event has a line that shows the event's entry in its row. |
| Properties.RowsShowOnlyEvents | src/main.rs:122-136 | Every cell the view shows is the grid's entry for that row and day, written by an event placed in that row, on one of its days. |
| Properties.RowsNonEmpty | src/main.rs:115-121 | When some event covers a day, the view is not empty. |
| Properties.RowsNone | src/main.rs:115-116 | When no event covers a day, the view is empty. |
| Properties.RowsEmpty | src/main.rs:134-136 | The view is empty exactly when every event ends before it starts, no events included. |
| Properties.ThreeEventsSorted | src/main.rs:59 | A(1-3), B(2-4), C(1) sort to A, C, B. |
| Properties.ThreeEventsGrid | src/main.rs:56-70 | Their grid is two rows. Row 0 holds A; row 1 holds C on day 1 and B on days 2-4. The last day is 4. |
| Properties.ThreeEvents | src/main.rs:134-140 | Their view has two columns and lines for days 1 to 4, with the exact counts and cells. |
| Optimality.OverlapAtMostRows | src/main.rs:96-110 | In start order, no day is covered by more events than there are rows. |
| Optimality.MinimalRows | src/main.rs:96-110 | In start order, with every event covering a day, the row count equals the largest number of events covering one day. It is zero exactly for no events. |
| Overlap.ActivePermutes | src/main.rs:59 | Two orderings of the same events have, for every day, the same number of events covering it. |
| Overlap.BuildMinimalRows | src/main.rs:56-110 | For input events that each cover a day, the grid built by `from_events` has exactly as many rows as the largest number of input events covering one day, and none exactly for no events. |
| Optimality.DegenerateCostsRow | src/main.rs:104-109 | A one-day event followed by an event ending before its start on the same day gives two rows, the second empty, while no day has two events. |

## Left out

- `main`, the `Options` struct and command-line parsing, file reading and JSON decoding (src/main.rs:143-154): these are I/O and foreign-library calls.
- The `Index` template and HTML rendering (src/main.rs:49-53): the template is not part of this model.
- The serde derives and the `Calendar` newtype: serialisation glue.
- chrono's `NaiveDate`: a date is an unbounded integer day ordinal. The calendar's minimum and maximum dates, and `iter_days` ending at the maximum, are not modelled.
- Title and certainty are opaque payload.
- `usize` for counts and indices is modelled as unbounded `nat`.
- Cloning of events and entries (`clone`, `cloned`): entries hold the event value directly.
- Calendar.CalendarCols.FindFreeRow: returns the chosen row's index rather than a mutable reference into `cols`. The caller then updates that row by index, so the aliasing is not modelled.
- Calendar.CalendarCols.FromEvents: the in-place `sort_by_key` is the pure stable sort `SortByStart`. The model fixes the result of the sort, not how it sorts in place.
- Calendar.CalendarCols.MaybeRowIter: the lazy iterator is a finished sequence. The laziness and the borrow of `self` are not modelled.
- Layout.RunCoverage: proved for events in start order, the order `from_events` produces. For other orders, `InsertEventChronological` still equals `Place`, which overwrites as `BTreeMap::insert` does, but no coverage is claimed.
- Layout.RowsDisjoint: the packing invariant is stated per event position, not per event value. Two equal events in the input cannot be told apart as values.
- Optimality.MinimalRows and Overlap.BuildMinimalRows: need every event to cover at least one day, because of the empty row an event ending before its start can add (see `Optimality.DegenerateCostsRow`).
