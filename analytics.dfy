/**
 * The analytics panel: for one class, the pivot of its attendance rows (no
 * roll coercion), each row's present count, the top-30 bar chart by
 * present count, and the present/absent totals behind the summary pie.
 * The panel reads the store and never writes to it.
 */
module Analytics {
  import opened Wrappers
  import opened Ordering
  import opened Records
  import opened Matrix

  /** The calls the panel makes; a run is given at most one that raises. */
  datatype PanelCall = ClientInit | ClassListFetch | DataFetch

  /** One bar of the top-30 chart: a student's name and present count. */
  datatype Tally = Tally(name: string, count: nat)

  datatype Report = Report(grid: Grid, presentCounts: seq<nat>, top: seq<Tally>, present: nat, absent: nat)

  datatype View =
    | ClientFailed | ClassListFailed | NoClasses | DataFailed
    | NoAttendance
    | Shown(report: Report)

  /** `select("class_name")` on `classroom_settings`: every class name, in table order. */
  function ClassNames(settings: seq<ClassConfig>): (r: seq<string>)
    ensures |r| == |settings|
    ensures forall i :: 0 <= i < |settings| ==> r[i] == settings[i].className
  {
    seq(|settings|, i requires 0 <= i < |settings| => settings[i].className)
  }

  // --------------------------------------------------------- present counts

  /** `sum(val == "P" for val in row)`. */
  function Present(cells: seq<Status>): (n: nat)
    ensures n <= |cells|
  {
    if cells == [] then 0 else Present(cells[..|cells| - 1]) + (if cells[|cells| - 1] == P then 1 else 0)
  }

  /** The positions of the "P" cells of a row. */
  function PresentAt(cells: seq<Status>): set<nat> {
    set i: nat | i < |cells| && cells[i] == P
  }

  /** A row's present count is the exact number of its "P" cells. */
  lemma {:induction false} PresentIsSize(cells: seq<Status>)
    ensures Present(cells) == |PresentAt(cells)|
    decreases |cells|
  {
    if cells != [] {
      var n := |cells| - 1;
      var p := cells[..n];
      PresentIsSize(p);
      var hit := if cells[n] == P then {n} else {};
      assert PresentAt(cells) == PresentAt(p) + hit;
      assert n !in PresentAt(p);
    }
  }

  /** `sum(val != "P" for val in row)`. */
  function Absent(cells: seq<Status>): (n: nat)
    ensures n <= |cells|
  {
    if cells == [] then 0 else Absent(cells[..|cells| - 1]) + (if cells[|cells| - 1] != P then 1 else 0)
  }

  /** A cell is either present or absent, so the two counts add up to the length. */
  lemma {:induction false} PresentPlusAbsent(cells: seq<Status>)
    ensures Present(cells) + Absent(cells) == |cells|
    decreases |cells|
  {
    if cells != [] { PresentPlusAbsent(cells[..|cells| - 1]); }
  }

  /** Counting over a concatenation adds the counts of the parts. */
  lemma {:induction false} PresentConcat(a: seq<Status>, b: seq<Status>)
    ensures Present(a + b) == Present(a) + Present(b)
    decreases |b|
  {
    var c := a + b;
    if b == [] {
      assert c == a;
    } else {
      assert c[..|c| - 1] == a + b[..|b| - 1];
      assert c[|c| - 1] == b[|b| - 1];
      PresentConcat(a, b[..|b| - 1]);
    }
  }

  /** A row's count is zero exactly when it has no "P", and full exactly when it has no "A". */
  lemma {:induction false} PresentExtremes(cells: seq<Status>)
    ensures Present(cells) == 0 <==> P !in cells
    ensures Present(cells) == |cells| <==> A !in cells
    decreases |cells|
  {
    if cells != [] {
      var p := cells[..|cells| - 1];
      assert cells == p + [cells[|cells| - 1]];
      PresentExtremes(p);
    }
  }

  /** The `Present_Count` column, one value per pivot row. */
  function PresentCounts(rows: seq<Row>): (r: seq<nat>)
    ensures |r| == |rows|
    ensures forall i :: 0 <= i < |rows| ==> r[i] == Present(rows[i].cells)
  {
    seq(|rows|, i requires 0 <= i < |rows| => Present(rows[i].cells))
  }

  /** Every pivot row is present on at least one date and on at most all of them. */
  lemma PivotCountBounds(entries: seq<Entry>, i: int)
    requires 0 <= i < |Pivot(entries).rows|
    ensures var m := Pivot(entries);
            1 <= PresentCounts(m.rows)[i] <= |m.dates|
  {
    var m := Pivot(entries);
    var row := m.rows[i];
    assert row.key in Labels(m.rows) by { assert Labels(m.rows)[i] == row.key; }
    var e :| e in entries && Key(e.roll, e.name) == row.key;
    assert e.date in m.dates;
    var j :| 0 <= j < |m.dates| && m.dates[j] == e.date;
    assert row.cells[j] == P;
    PresentExtremes(row.cells);
  }

  // ----------------------------------------------------------------- totals

  /** `pivot_df[date_cols].values.flatten()`: the cells row by row. */
  function Flatten(rows: seq<Row>): (r: seq<Status>)
    ensures forall x :: x in r <==> exists i :: 0 <= i < |rows| && x in rows[i].cells
  {
    if rows == [] then [] else Flatten(rows[..|rows| - 1]) + rows[|rows| - 1].cells
  }

  function Sum(xs: seq<nat>): nat {
    if xs == [] then 0 else Sum(xs[..|xs| - 1]) + xs[|xs| - 1]
  }

  lemma {:induction false} FlattenLength(rows: seq<Row>, width: nat)
    requires forall i :: 0 <= i < |rows| ==> |rows[i].cells| == width
    ensures |Flatten(rows)| == |rows| * width
    decreases |rows|
  {
    if rows != [] {
      var p := rows[..|rows| - 1];
      FlattenLength(p, width);
      assert |rows| * width == |p| * width + width;
    }
  }

  lemma {:induction false} PresentFlatten(rows: seq<Row>)
    ensures Present(Flatten(rows)) == Sum(PresentCounts(rows))
    decreases |rows|
  {
    if rows != [] {
      var p := rows[..|rows| - 1];
      var last := rows[|rows| - 1];
      PresentFlatten(p);
      assert Flatten(rows) == Flatten(p) + last.cells;
      PresentConcat(Flatten(p), last.cells);
      var counts := PresentCounts(rows);
      assert counts[..|rows| - 1] == PresentCounts(p);
      assert Sum(counts) == Sum(PresentCounts(p)) + Present(last.cells);
    }
  }

  /** The pie's totals: present counts add up row by row, and the cells are rows times date columns. */
  lemma Totals(rows: seq<Row>, width: nat)
    requires forall i :: 0 <= i < |rows| ==> |rows[i].cells| == width
    ensures Present(Flatten(rows)) == Sum(PresentCounts(rows))
    ensures Present(Flatten(rows)) + Absent(Flatten(rows)) == |rows| * width
  {
    PresentFlatten(rows);
    FlattenLength(rows, width);
    PresentPlusAbsent(Flatten(rows));
  }

  // ----------------------------------------------------------------- top 30

  function Negated(t: Tally): int { -(t.count as int) }

  function Min(a: nat, b: nat): nat { if a < b then a else b }

  /** Cutting a list sorted by descending count leaves no count behind that beats one kept. */
  lemma CutSorted(s: seq<Tally>, k: nat)
    requires SortedByKey(s, Negated) && k <= |s|
    ensures forall x, y :: x in multiset(s) - multiset(s[..k]) && y in s[..k] ==> x.count <= y.count
  {
    var kept, rest := s[..k], s[k..];
    assert s == kept + rest;
    assert multiset(s) == multiset(kept) + multiset(rest);
    forall x, y | x in multiset(s) - multiset(kept) && y in kept ensures x.count <= y.count {
      assert x in multiset(rest);
      var a :| 0 <= a < |rest| && rest[a] == x;
      var b :| 0 <= b < k && kept[b] == y;
      assert Negated(s[b]) <= Negated(s[k + a]);
    }
  }

  /** The first `k` of a list sorted by descending count are themselves in descending order. */
  lemma CutDescending(s: seq<Tally>, k: nat)
    requires SortedByKey(s, Negated) && k <= |s|
    ensures forall i, j :: 0 <= i < j < k ==> s[..k][i].count >= s[..k][j].count
  {
    forall i, j | 0 <= i < j < k ensures s[..k][i].count >= s[..k][j].count {
      assert Negated(s[i]) <= Negated(s[j]);
    }
  }

  /** A prefix holds no value more often than the whole list does. */
  lemma CutIncluded(s: seq<Tally>, k: nat)
    requires k <= |s|
    ensures multiset(s[..k]) <= multiset(s)
  {
    assert s == s[..k] + s[k..];
  }

  /**
   * `nlargest(n, "Present_Count")` with its default `keep="first"`: the `n`
   * highest counts, highest first, ties in table order.
   */
  function Largest(ts: seq<Tally>, n: nat): (r: seq<Tally>)
    ensures |r| == Min(n, |ts|)
    ensures forall i, j :: 0 <= i < j < |r| ==> r[i].count >= r[j].count
    ensures multiset(r) <= multiset(ts)
    ensures forall x, y :: x in multiset(ts) - multiset(r) && y in r ==> x.count <= y.count
  {
    var s := SortByKey(ts, Negated);
    var k := Min(n, |s|);
    CutDescending(s, k);
    CutIncluded(s, k);
    CutSorted(s, k);
    s[..k]
  }

  function Tallies(rows: seq<Row>): (r: seq<Tally>)
    ensures |r| == |rows|
    ensures forall i :: 0 <= i < |rows| ==> r[i] == Tally(rows[i].key.name, Present(rows[i].cells))
  {
    seq(|rows|, i requires 0 <= i < |rows| => Tally(rows[i].key.name, Present(rows[i].cells)))
  }

  /** Every bar of the chart is a pivot row's name with that row's present count. */
  lemma TopAreRows(rows: seq<Row>, n: nat)
    ensures forall t :: t in Largest(Tallies(rows), n) ==>
              exists i :: 0 <= i < |rows| && t == Tally(rows[i].key.name, Present(rows[i].cells))
  {
    var ts := Tallies(rows);
    var top := Largest(ts, n);
    forall t | t in top ensures exists i :: 0 <= i < |rows| && t == Tally(rows[i].key.name, Present(rows[i].cells)) {
      assert t in multiset(top);
      assert t in ts;
      var i :| 0 <= i < |ts| && ts[i] == t;
    }
  }

  // ------------------------------------------------------------------ panel

  /** The panel's figures for one class's fetched entries. */
  function Summarize(entries: seq<Entry>): (r: Report)
    ensures r.grid == Pivot(entries)
    ensures r.presentCounts == PresentCounts(r.grid.rows)
    ensures |r.top| == Min(30, |r.grid.rows|)
    ensures forall i, j :: 0 <= i < j < |r.top| ==> r.top[i].count >= r.top[j].count
    ensures r.top == Largest(Tallies(r.grid.rows), 30)
    ensures r.present == Sum(r.presentCounts)
    ensures r.present + r.absent == |r.grid.rows| * |r.grid.dates|
  {
    var m := Pivot(entries);
    var flat := Flatten(m.rows);
    Totals(m.rows, |m.dates|);
    Report(m, PresentCounts(m.rows), Largest(Tallies(m.rows), 30), Present(flat), Absent(flat))
  }

  /**
   * The panel: the client, the class list, the selected class's attendance,
   * then the report. `selected` is the class picked from the list.
   */
  function Panel(db: Db, selected: string, fault: Option<PanelCall>): (v: View)
    requires ClassNames(db.settings) != [] ==> selected in ClassNames(db.settings)
    ensures fault == Some(ClientInit) <==> v.ClientFailed?
    ensures v.NoClasses? <==> fault != Some(ClientInit) && fault != Some(ClassListFetch) && db.settings == []
    ensures v.NoAttendance? <==>
              fault == None && db.settings != [] && ClassEvents(db.attendance, selected) == []
    ensures v.Shown? <==> fault == None && db.settings != [] && ClassEvents(db.attendance, selected) != []
    ensures v.Shown? ==> v.report == Summarize(AsEntries(ClassEvents(db.attendance, selected)))
  {
    match fault
    case Some(ClientInit) => ClientFailed
    case Some(ClassListFetch) => ClassListFailed
    case Some(DataFetch) => if db.settings == [] then NoClasses else DataFailed
    case None =>
      if db.settings == [] then NoClasses
      else
        var data := ClassEvents(db.attendance, selected);
        if data == [] then NoAttendance else Shown(Summarize(AsEntries(data)))
  }
}
