/**
 * The admin's matrix in `show_matrix_and_push`: the class's attendance rows
 * are pivoted, the roll-number column goes through
 * `pd.to_numeric(errors="coerce")`, rows whose roll did not convert are
 * dropped, the rest get integer rolls and are sorted by roll.
 */
module AdminMatrix {
  import opened Wrappers
  import opened Strings
  import opened Ordering
  import opened Records
  import opened Matrix

  /** A matrix row once its roll number has been converted to an integer. */
  datatype NumRow = NumRow(roll: int, name: string, cells: seq<Status>)

  /** What the admin sees below the class controls. */
  datatype MatrixView = FetchFailed | NoData | Table(dates: seq<string>, rows: seq<NumRow>)

  /** `pd.to_numeric(value, errors="coerce")`, with None for the values that become NaN. */
  function ToNumeric(c: RollCell): (r: Option<int>)
    ensures c.Num? ==> r == Some(c.n)
    ensures c.Text? ==> (r.Some? <==> IntegerText(c.s))
    ensures c.Text? && IntegerText(c.s) ==> r == Some(IntegerValue(c.s))
  {
    match c
    case Num(n) => Some(n)
    case Text(s) => if IntegerText(s) then Some(IntegerValue(s)) else None
  }

  /** A pivot row after coercion, or None when its roll number is dropped. */
  function Numeric(row: Row): Option<NumRow> {
    match ToNumeric(row.key.roll)
    case Some(n) => Some(NumRow(n, row.key.name, row.cells))
    case None => None
  }

  /**
   * `to_numeric` then `dropna(subset=["roll_number"])`: the rows that convert,
   * in their order. The contract gives membership; order and count are pinned
   * by `CoerceAll` for pivots built from the store, where every roll is a number.
   */
  function Coerce(rows: seq<Row>): (r: seq<NumRow>)
    ensures |r| <= |rows|
    ensures forall x :: x in r <==> exists i :: 0 <= i < |rows| && Numeric(rows[i]) == Some(x)
  {
    if rows == [] then []
    else
      var p := rows[..|rows| - 1];
      var last := rows[|rows| - 1];
      var rest := Coerce(p);
      assert forall i :: 0 <= i < |p| ==> p[i] == rows[i];
      match Numeric(last)
      case Some(x) => rest + [x]
      case None => rest
  }

  /** The row with a numeric roll at the end of a pivot survives coercion, at the end. */
  lemma CoerceSnoc(p: seq<Row>, last: Row)
    requires last.key.roll.Num?
    ensures Coerce(p + [last]) == Coerce(p) + [NumRow(last.key.roll.n, last.key.name, last.cells)]
  {
    var rows := p + [last];
    assert rows[..|rows| - 1] == p;
  }

  /** When every roll is already a number, coercion keeps every row, in place. */
  lemma {:induction false} CoerceAll(rows: seq<Row>)
    requires forall i :: 0 <= i < |rows| ==> rows[i].key.roll.Num?
    ensures |Coerce(rows)| == |rows|
    ensures forall i :: 0 <= i < |rows| ==>
              Coerce(rows)[i] == NumRow(rows[i].key.roll.n, rows[i].key.name, rows[i].cells)
    decreases |rows|
  {
    if rows != [] {
      var p := rows[..|rows| - 1];
      var last := rows[|rows| - 1];
      assert rows == p + [last];
      CoerceAll(p);
      CoerceSnoc(p, last);
    }
  }

  function ByRoll(x: NumRow): int { x.roll }

  /** Coerced rows, then `sort_values("roll_number")`. */
  function Shown(rows: seq<Row>): (r: seq<NumRow>)
    ensures SortedByKey(r, ByRoll)
    ensures multiset(r) == multiset(Coerce(rows))
  {
    SortByKey(Coerce(rows), ByRoll)
  }

  /** The admin's rows for the fetched entries. */
  function AdminRows(entries: seq<Entry>): (r: seq<NumRow>)
    ensures SortedByKey(r, ByRoll)
    ensures multiset(r) == multiset(Coerce(Pivot(entries).rows))
  {
    Shown(Pivot(entries).rows)
  }

  /** The view for the selected class: fetch, then a table unless there are no rows. */
  function View(db: Db, className: string, fetchFails: bool): (v: MatrixView)
    ensures fetchFails ==> v == FetchFailed
    ensures !fetchFails ==> (v == NoData <==> ClassEvents(db.attendance, className) == [])
    ensures v.Table? ==> SortedByKey(v.rows, ByRoll)
    ensures v.Table? ==>
              var entries := AsEntries(ClassEvents(db.attendance, className));
              v == Table(Pivot(entries).dates, AdminRows(entries))
  {
    if fetchFails then FetchFailed
    else
      var records := ClassEvents(db.attendance, className);
      if records == [] then NoData
      else
        var entries := AsEntries(records);
        Table(Pivot(entries).dates, AdminRows(entries))
  }

  // --------------------------------------------------------------- lemmas

  /** A row whose roll converts is shown, under its converted roll, with its name and cells. */
  lemma ShownKeeps(rows: seq<Row>, i: int)
    requires 0 <= i < |rows| && Numeric(rows[i]).Some?
    ensures Numeric(rows[i]).value in Shown(rows)
  {
    assert Numeric(rows[i]).value in Coerce(rows);
    assert Numeric(rows[i]).value in multiset(Shown(rows));
  }

  /** Every shown row is a converted pivot row. */
  lemma ShownFrom(rows: seq<Row>, x: NumRow)
    requires x in Shown(rows)
    ensures exists i :: 0 <= i < |rows| && Numeric(rows[i]) == Some(x)
  {
    assert x in multiset(Shown(rows));
    assert x in Coerce(rows);
  }

  /** Every shown row of the admin's table stands for fetched entries of that roll and name. */
  lemma {:induction false} AdminRowFrom(entries: seq<Entry>, x: NumRow)
    requires x in AdminRows(entries)
    ensures exists e :: e in entries && e.name == x.name && ToNumeric(e.roll) == Some(x.roll)
  {
    var rows := Pivot(entries).rows;
    ShownFrom(rows, x);
    var i :| 0 <= i < |rows| && Numeric(rows[i]) == Some(x);
    assert rows[i].key in Labels(rows) by { assert Labels(rows)[i] == rows[i].key; }
    var e :| e in entries && Key(e.roll, e.name) == rows[i].key;
  }

  /** Every pivot row of the entries fetched from the store has an integer roll. */
  lemma {:induction false} StoreRowsNumeric(db: Db, className: string)
    ensures forall i :: 0 <= i < |Pivot(AsEntries(ClassEvents(db.attendance, className))).rows| ==>
              Pivot(AsEntries(ClassEvents(db.attendance, className))).rows[i].key.roll.Num? &&
              Numeric(Pivot(AsEntries(ClassEvents(db.attendance, className))).rows[i]).Some?
  {
    var entries := AsEntries(ClassEvents(db.attendance, className));
    var rows := Pivot(entries).rows;
    forall i | 0 <= i < |rows| ensures rows[i].key.roll.Num? && Numeric(rows[i]).Some? {
      assert rows[i].key in Labels(rows) by { assert Labels(rows)[i] == rows[i].key; }
      var e :| e in entries && Key(e.roll, e.name) == rows[i].key;
      var k :| 0 <= k < |entries| && entries[k] == e;
    }
  }

  /** Rows fetched from the store carry integer rolls, so `dropna` drops none of them. */
  lemma StoreRowsKept(db: Db, className: string)
    ensures var entries := AsEntries(ClassEvents(db.attendance, className));
            |AdminRows(entries)| == |Pivot(entries).rows|
  {
    StoreRowsNumeric(db, className);
    var entries := AsEntries(ClassEvents(db.attendance, className));
    CoerceAll(Pivot(entries).rows);
    assert |multiset(AdminRows(entries))| == |multiset(Coerce(Pivot(entries).rows))|;
  }

  /** In a valid store, two rows fetched for one class with the same roll have the same name. */
  lemma OneNamePerRoll(db: Db, className: string, a: Entry, b: Entry)
    requires Valid(db)
    requires a in AsEntries(ClassEvents(db.attendance, className))
    requires b in AsEntries(ClassEvents(db.attendance, className))
    ensures a.roll == b.roll ==> a.name == b.name
  {
    var events := ClassEvents(db.attendance, className);
    var entries := AsEntries(events);
    var i :| 0 <= i < |entries| && entries[i] == a;
    var j :| 0 <= j < |entries| && entries[j] == b;
    assert events[i] in db.attendance && events[j] in db.attendance;
  }

  /** In a valid store, two pivot rows of one class's rows never share a roll. */
  lemma PivotRollsDistinct(db: Db, className: string, a: int, b: int)
    requires Valid(db)
    requires var rows := Pivot(AsEntries(ClassEvents(db.attendance, className))).rows;
             0 <= a < b < |rows|
    ensures var rows := Pivot(AsEntries(ClassEvents(db.attendance, className))).rows;
            rows[a].key.roll != rows[b].key.roll
  {
    var entries := AsEntries(ClassEvents(db.attendance, className));
    var rows := Pivot(entries).rows;
    PivotRowsDistinct(entries, a, b);
    assert rows[a].key in Labels(rows) by { assert Labels(rows)[a] == rows[a].key; }
    assert rows[b].key in Labels(rows) by { assert Labels(rows)[b] == rows[b].key; }
    var ea :| ea in entries && Key(ea.roll, ea.name) == rows[a].key;
    var eb :| eb in entries && Key(eb.roll, eb.name) == rows[b].key;
    OneNamePerRoll(db, className, ea, eb);
  }

  /** Sorting rows whose rolls are pairwise distinct puts them in strictly ascending roll order. */
  lemma StrictlyAscending(cs: seq<NumRow>, r: seq<NumRow>)
    requires forall a, b :: 0 <= a < b < |cs| ==> cs[a].roll != cs[b].roll
    requires multiset(r) == multiset(cs) && SortedByKey(r, ByRoll)
    ensures forall i, j :: 0 <= i < j < |r| ==> r[i].roll < r[j].roll
  {
    DistinctPermutation(cs, r);
    forall i, j | 0 <= i < j < |r| ensures r[i].roll < r[j].roll {
      assert r[i] in multiset(cs) && r[j] in multiset(cs);
      var a :| 0 <= a < |cs| && cs[a] == r[i];
      var b :| 0 <= b < |cs| && cs[b] == r[j];
      assert ByRoll(r[i]) <= ByRoll(r[j]);
    }
  }

  /** In a valid store the admin's table lists every roll of the class once, in strictly ascending order. */
  lemma {:induction false} AdminRollsAscending(db: Db, className: string)
    requires Valid(db)
    ensures var r := AdminRows(AsEntries(ClassEvents(db.attendance, className)));
            forall i, j :: 0 <= i < j < |r| ==> r[i].roll < r[j].roll
  {
    var entries := AsEntries(ClassEvents(db.attendance, className));
    var rows := Pivot(entries).rows;
    var cs := Coerce(rows);
    StoreRowsNumeric(db, className);
    CoerceAll(rows);
    forall a, b | 0 <= a < b < |cs| ensures cs[a].roll != cs[b].roll {
      PivotRollsDistinct(db, className, a, b);
    }
    StrictlyAscending(cs, AdminRows(entries));
  }
}
