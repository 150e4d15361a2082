/**
 * The pivot that all three matrix views build from attendance rows:
 * `pivot_table(index=["roll_number", "name"], columns="date",
 * values="status", aggfunc="first", fill_value="A")` over rows whose status
 * is "P". The result has one row per distinct (roll, name), one column per
 * distinct date, both in ascending order, and "P" in a cell exactly when
 * some row has that roll, name and date.
 */
module Matrix {
  import opened Strings
  import opened Ordering
  import opened Records

  /** A roll number as it arrives in a DataFrame column: a number, or text. */
  datatype RollCell = Num(n: int) | Text(s: string)

  /** One fetched attendance row, with the columns the pivot uses. */
  datatype Entry = Entry(roll: RollCell, name: string, date: string)

  datatype Status = P | A

  /** A pivot row label. */
  datatype Key = Key(roll: RollCell, name: string)

  /** A pivot row: its label and one status per date column. */
  datatype Row = Row(key: Key, cells: seq<Status>)

  datatype Grid = Grid(dates: seq<string>, rows: seq<Row>)

  /** A store event as a fetched row: its integer roll arrives as a number. */
  function AsEntry(e: AttendanceEvent): Entry {
    Entry(Num(e.rollNumber), e.name, e.date)
  }

  function AsEntries(events: seq<AttendanceEvent>): (r: seq<Entry>)
    ensures |r| == |events|
    ensures forall i :: 0 <= i < |events| ==> r[i] == AsEntry(events[i])
  {
    seq(|events|, i requires 0 <= i < |events| => AsEntry(events[i]))
  }

  // ------------------------------------------------------------ label order

  /** Numbers before text; numbers by value, text by code points. */
  predicate CellLt(a: RollCell, b: RollCell) {
    match (a, b)
    case (Num(x), Num(y)) => x < y
    case (Num(_), Text(_)) => true
    case (Text(_), Num(_)) => false
    case (Text(x), Text(y)) => StrLt(x, y)
  }

  /** Row labels in lexicographic order: roll first, then name. */
  predicate KeyLt(a: Key, b: Key) {
    CellLt(a.roll, b.roll) || (a.roll == b.roll && StrLt(a.name, b.name))
  }

  lemma StrLtStrictTotal()
    ensures StrictTotal(StrLt)
  {
    forall x ensures !StrLt(x, x) { StrLtIrreflexive(x); }
    forall x, y, z | StrLt(x, y) && StrLt(y, z) ensures StrLt(x, z) { StrLtTransitive(x, y, z); }
    forall x, y | x != y ensures StrLt(x, y) || StrLt(y, x) { StrLtTotal(x, y); }
  }

  lemma CellLtStrictTotal()
    ensures StrictTotal(CellLt)
  {
    forall x ensures !CellLt(x, x) {
      if x.Text? { StrLtIrreflexive(x.s); }
    }
    forall x, y, z | CellLt(x, y) && CellLt(y, z) ensures CellLt(x, z) {
      if x.Text? && y.Text? && z.Text? { StrLtTransitive(x.s, y.s, z.s); }
    }
    forall x, y | x != y ensures CellLt(x, y) || CellLt(y, x) {
      if x.Text? && y.Text? { StrLtTotal(x.s, y.s); }
    }
  }

  lemma KeyLtStrictTotal()
    ensures StrictTotal(KeyLt)
  {
    CellLtStrictTotal();
    StrLtStrictTotal();
    forall x: Key, y: Key | x != y ensures KeyLt(x, y) || KeyLt(y, x) {
      if x.roll == y.roll {
        assert x.name != y.name;
      }
    }
  }

  // ------------------------------------------------------------------- pivot

  function DateList(entries: seq<Entry>): (r: seq<string>)
    ensures forall d :: d in r <==> exists e :: e in entries && e.date == d
  {
    if entries == [] then []
    else
      var p := entries[..|entries| - 1];
      var last := entries[|entries| - 1];
      assert entries == p + [last];
      DateList(p) + [last.date]
  }

  function KeyList(entries: seq<Entry>): (r: seq<Key>)
    ensures forall k :: k in r <==> exists e :: e in entries && Key(e.roll, e.name) == k
  {
    if entries == [] then []
    else
      var p := entries[..|entries| - 1];
      var last := entries[|entries| - 1];
      assert entries == p + [last];
      KeyList(p) + [Key(last.roll, last.name)]
  }

  /** The column labels: every date that occurs, ascending, each once. */
  function Dates(entries: seq<Entry>): (r: seq<string>)
    ensures StrictlySorted(r, StrLt)
    ensures forall d :: d in r <==> exists e :: e in entries && e.date == d
  {
    StrLtStrictTotal();
    SortedUnique(DateList(entries), StrLt)
  }

  /** The row labels: every (roll, name) that occurs, ascending, each once. */
  function Keys(entries: seq<Entry>): (r: seq<Key>)
    ensures StrictlySorted(r, KeyLt)
    ensures forall k :: k in r <==> exists e :: e in entries && Key(e.roll, e.name) == k
  {
    KeyLtStrictTotal();
    SortedUnique(KeyList(entries), KeyLt)
  }

  /** One row's cells: "P" for a date with a matching entry, the fill value "A" otherwise. */
  function Cells(entries: seq<Entry>, k: Key, dates: seq<string>): (r: seq<Status>)
    ensures |r| == |dates|
    ensures forall j :: 0 <= j < |dates| ==> (r[j] == P <==> Entry(k.roll, k.name, dates[j]) in entries)
  {
    seq(|dates|, j requires 0 <= j < |dates| => if Entry(k.roll, k.name, dates[j]) in entries then P else A)
  }

  /** The row labels of a grid, top to bottom. */
  function Labels(rows: seq<Row>): (r: seq<Key>)
    ensures |r| == |rows| && forall i :: 0 <= i < |rows| ==> r[i] == rows[i].key
  {
    seq(|rows|, i requires 0 <= i < |rows| => rows[i].key)
  }

  /** Every row has one cell per date column. */
  predicate Rectangular(m: Grid) {
    forall i :: 0 <= i < |m.rows| ==> |m.rows[i].cells| == |m.dates|
  }

  function Pivot(entries: seq<Entry>): (m: Grid)
    ensures StrictlySorted(m.dates, StrLt)
    ensures forall d :: d in m.dates <==> exists e :: e in entries && e.date == d
    ensures StrictlySorted(Labels(m.rows), KeyLt)
    ensures forall k :: k in Labels(m.rows) <==> exists e :: e in entries && Key(e.roll, e.name) == k
    ensures Rectangular(m)
    ensures forall i, j :: 0 <= i < |m.rows| && 0 <= j < |m.dates| ==>
              (m.rows[i].cells[j] == P <==> Entry(m.rows[i].key.roll, m.rows[i].key.name, m.dates[j]) in entries)
  {
    var dates := Dates(entries);
    var keys := Keys(entries);
    var rows := seq(|keys|, i requires 0 <= i < |keys| => Row(keys[i], Cells(entries, keys[i], dates)));
    assert Labels(rows) == keys;
    Grid(dates, rows)
  }

  /** Every entry shows up as a "P" in its own row and date column. */
  lemma EntryShown(entries: seq<Entry>, e: Entry)
    requires e in entries
    ensures var m := Pivot(entries);
            exists i, j :: 0 <= i < |m.rows| && 0 <= j < |m.dates| &&
              m.rows[i].key == Key(e.roll, e.name) && m.dates[j] == e.date && m.rows[i].cells[j] == P
  {
    var m := Pivot(entries);
    assert e.date in m.dates;
    var j :| 0 <= j < |m.dates| && m.dates[j] == e.date;
    assert Key(e.roll, e.name) in Labels(m.rows);
    var i :| 0 <= i < |m.rows| && Labels(m.rows)[i] == Key(e.roll, e.name);
    assert m.rows[i].cells[j] == P;
  }

  /** Row labels are distinct: no (roll, name) gets two rows. */
  lemma PivotRowsDistinct(entries: seq<Entry>, i: int, j: int)
    requires var m := Pivot(entries); 0 <= i < j < |m.rows|
    ensures Pivot(entries).rows[i].key != Pivot(entries).rows[j].key
  {
    var m := Pivot(entries);
    KeyLtStrictTotal();
    assert KeyLt(Labels(m.rows)[i], Labels(m.rows)[j]);
  }
}
