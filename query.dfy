/** The pieces of the day-by-day view of a grid: what each row shows on a day,
    how many rows show something, and the run of consecutive days. */
module Query {
  import opened Events

  /** One line of the view: a day, how many rows have an entry that day, and
      each row's entry (absent where the row is free). */
  datatype DayRow = DayRow(day: Date, count: nat, cells: seq<Option<RowEntry>>)

  /** The row's entry on `day`, if any. */
  function Get(row: Row, day: Date): Option<RowEntry>
  {
    if day in row then Some(row[day]) else None
  }

  /** One cell per row, in row order. */
  function Cells(cols: seq<Row>, day: Date): (cells: seq<Option<RowEntry>>)
    ensures |cells| == |cols|
    ensures forall i :: 0 <= i < |cols| ==> cells[i] == Get(cols[i], day)
  {
    if cols == [] then [] else [Get(cols[0], day)] + Cells(cols[1..], day)
  }

  /** The indices of the rows that have an entry on `day`. */
  ghost function RowsWith(cols: seq<Row>, day: Date): set<int>
  {
    set i | 0 <= i < |cols| && day in cols[i]
  }

  /** The number of rows with an entry on `day`. */
  function Count(cols: seq<Row>, day: Date): (n: nat)
    ensures n == |RowsWith(cols, day)|
    ensures n <= |cols|
  {
    if cols == [] then 0
    else
      var m := |cols| - 1;
      assert RowsWith(cols, day) ==
        RowsWith(cols[..m], day) + (if day in cols[m] then {m} else {});
      Count(cols[..m], day) + (if day in cols[m] then 1 else 0)
  }

  /** The line of the view for one day. */
  function DayAt(cols: seq<Row>, day: Date): DayRow
  {
    DayRow(day, Count(cols, day), Cells(cols, day))
  }

  /** The days from `from` through `last`, ascending: `from` and each next
      day while it is no later than `last`. */
  function DaysThrough(from: Date, last: Date): (ds: seq<Date>)
    decreases last - from + 1
    ensures |ds| == if from <= last then last - from + 1 else 0
    ensures forall k :: 0 <= k < |ds| ==> ds[k] == from + k
  {
    if last < from then []
    else
      var rest := DaysThrough(from + 1, last);
      assert forall k :: 0 < k <= |rest| ==> ([from] + rest)[k] == rest[k - 1];
      [from] + rest
  }

  /** One line per day from `from` through `last`, in ascending order. */
  function DaysFrom(cols: seq<Row>, from: Date, last: Date): (rs: seq<DayRow>)
    ensures |rs| == if from <= last then last - from + 1 else 0
    ensures forall k :: 0 <= k < |rs| ==> rs[k] == DayAt(cols, from + k)
  {
    var ds := DaysThrough(from, last);
    seq(|ds|, k requires 0 <= k < |ds| => DayAt(cols, ds[k]))
  }

  lemma {:induction false} SmallestExists(s: set<int>)
    requires s != {}
    ensures exists k :: k in s && forall x :: x in s ==> k <= x
  {
    if forall x :: x !in s { assert false; }
    var y :| y in s;
    if s != {y} {
      SmallestExists(s - {y});
      var k :| k in s - {y} && forall x :: x in s - {y} ==> k <= x;
      var m := if y < k then y else k;
      forall x | x in s
        ensures m <= x
      {
        if x != y {
          assert x in s - {y};
        }
      }
    }
  }

  /** The earliest day on which the row has an entry. */
  function MinKey(row: Row): (k: Date)
    requires row != map[]
    ensures k in row && forall d :: d in row ==> k <= d
  {
    SmallestExists(row.Keys);
    var k :| k in row && forall d :: d in row ==> k <= d;
    k
  }
}
