/**
 * The student's record view: a class from the list, a roll number typed
 * as text, one query on `attendance` filtered on both, and the pivot of
 * what comes back, sorted by roll number. The view never writes.
 */
module RecordView {
  import opened Wrappers
  import opened Strings
  import opened Ordering
  import opened Records
  import opened Matrix

  datatype Lookup = AskRoll | NoClient | NoRecords | Table(grid: Grid)

  /** The largest value of the store's 32-bit `roll_number` column. */
  const Int4Max: int := 0x7FFF_FFFF

  /**
   * How the store reads the roll text it is sent for the integer column:
   * optionally signed ASCII digits within 32-bit range. Any other text makes
   * the query raise.
   */
  predicate Castable(text: string): (b: bool)
    ensures b ==> Strip(text) == text
  {
    if IntegerText(text) then
      StripClean(text);
      -Int4Max - 1 <= IntegerValue(text) <= Int4Max
    else false
  }

  /** A roll typed the way `str()` prints it, within the column's range, is read as that roll. */
  lemma {:induction false} CastableShown(n: nat)
    requires n <= Int4Max
    ensures Castable(ShowNat(n)) && IntegerValue(ShowNat(n)) == n
  {
    ShowNatRoundTrip(n);
  }

  /** `attendance` filtered on class and roll, in table order. */
  function RollEvents(attendance: seq<AttendanceEvent>, className: string, roll: int): (r: seq<AttendanceEvent>)
    ensures |r| <= |attendance|
    ensures forall e :: e in r <==> e in attendance && e.className == className && e.rollNumber == roll
  {
    if attendance == [] then []
    else
      var p := attendance[..|attendance| - 1];
      var last := attendance[|attendance| - 1];
      assert attendance == p + [last];
      RollEvents(p, className, roll) +
        (if last.className == className && last.rollNumber == roll then [last] else [])
  }

  /**
   * The submitted form: the typed roll is stripped; an empty roll asks for
   * one; a missing client is reported; a query that raises counts as no
   * records. `clientReady` is whether the module-level client was built and
   * `queryFails` whether the query raises on its own account.
   */
  function Show(db: Db, selected: string, rollInput: string, clientReady: bool, queryFails: bool): (v: Lookup)
    ensures v.AskRoll? <==> AllSpace(rollInput)
    ensures v.NoClient? <==> !AllSpace(rollInput) && !clientReady
    ensures v.Table? ==> clientReady && !queryFails && Castable(Strip(rollInput))
    ensures v.Table? ==>
              var records := RollEvents(db.attendance, selected, IntegerValue(Strip(rollInput)));
              records != [] && v.grid == Pivot(AsEntries(records))
    ensures !AllSpace(rollInput) && clientReady && !queryFails && Castable(Strip(rollInput)) ==>
              (v.NoRecords? <==> RollEvents(db.attendance, selected, IntegerValue(Strip(rollInput))) == [])
  {
    var roll := Strip(rollInput);
    if roll == [] then AskRoll
    else if !clientReady then NoClient
    else if queryFails || !Castable(roll) then NoRecords
    else
      var records := RollEvents(db.attendance, selected, IntegerValue(roll));
      if records == [] then NoRecords else Table(Pivot(AsEntries(records)))
  }

  // --------------------------------------------------------------- lemmas

  /** Every row of the student's table has the queried roll, so sorting by roll leaves it as it is. */
  lemma RowsHaveRoll(att: seq<AttendanceEvent>, className: string, roll: int, i: int)
    requires 0 <= i < |Pivot(AsEntries(RollEvents(att, className, roll))).rows|
    ensures Pivot(AsEntries(RollEvents(att, className, roll))).rows[i].key.roll == Num(roll)
  {
    var records := RollEvents(att, className, roll);
    var entries := AsEntries(records);
    var rows := Pivot(entries).rows;
    assert rows[i].key in Labels(rows) by { assert Labels(rows)[i] == rows[i].key; }
    var e :| e in entries && Key(e.roll, e.name) == rows[i].key;
    var k :| 0 <= k < |entries| && entries[k] == e;
    assert records[k] in records;
  }

  /** A day the roll was marked in the class has a date column. */
  lemma MarkedDayShown(att: seq<AttendanceEvent>, className: string, roll: int, day: string)
    requires Marked(att, className, roll, day)
    ensures day in Pivot(AsEntries(RollEvents(att, className, roll))).dates
  {
    var records := RollEvents(att, className, roll);
    var e :| e in att && e.className == className && e.rollNumber == roll && e.date == day;
    var k :| 0 <= k < |records| && records[k] == e;
    assert AsEntries(records)[k].date == day;
  }

  /** A date column is a day the roll was marked in the class. */
  lemma ShownDayMarked(att: seq<AttendanceEvent>, className: string, roll: int, day: string)
    requires day in Pivot(AsEntries(RollEvents(att, className, roll))).dates
    ensures Marked(att, className, roll, day)
  {
    var records := RollEvents(att, className, roll);
    var entries := AsEntries(records);
    var x :| x in entries && x.date == day;
    var k :| 0 <= k < |entries| && entries[k] == x;
    assert records[k] in records;
  }

  /** A date column is shown exactly when the roll was marked in the class that day. */
  lemma DatesAreMarkedDays(att: seq<AttendanceEvent>, className: string, roll: int, day: string)
    ensures day in Pivot(AsEntries(RollEvents(att, className, roll))).dates <==> Marked(att, className, roll, day)
  {
    if Marked(att, className, roll, day) {
      MarkedDayShown(att, className, roll, day);
    }
    if day in Pivot(AsEntries(RollEvents(att, className, roll))).dates {
      ShownDayMarked(att, className, roll, day);
    }
  }

  /** In a valid store two fetched entries of one (class, roll) carry the same name: the locked one. */
  lemma OneName(db: Db, className: string, roll: int, a: Entry, b: Entry)
    requires Valid(db)
    requires a in AsEntries(RollEvents(db.attendance, className, roll))
    requires b in AsEntries(RollEvents(db.attendance, className, roll))
    ensures a.name == b.name
  {
    var records := RollEvents(db.attendance, className, roll);
    var entries := AsEntries(records);
    var i :| 0 <= i < |entries| && entries[i] == a;
    var j :| 0 <= j < |entries| && entries[j] == b;
    assert records[i] in db.attendance && records[j] in db.attendance;
    assert LockOf(db.rollMap, className, roll) == Some(a.name);
  }

  /** In a valid store a roll of a class has one locked name, so the student's table has at most one row. */
  lemma AtMostOneRow(db: Db, className: string, roll: int)
    requires Valid(db)
    ensures |Pivot(AsEntries(RollEvents(db.attendance, className, roll))).rows| <= 1
  {
    var entries := AsEntries(RollEvents(db.attendance, className, roll));
    var rows := Pivot(entries).rows;
    if |rows| >= 2 {
      RowsHaveRoll(db.attendance, className, roll, 0);
      RowsHaveRoll(db.attendance, className, roll, 1);
      assert rows[0].key in Labels(rows) by { assert Labels(rows)[0] == rows[0].key; }
      assert rows[1].key in Labels(rows) by { assert Labels(rows)[1] == rows[1].key; }
      var a :| a in entries && Key(a.roll, a.name) == rows[0].key;
      var b :| b in entries && Key(b.roll, b.name) == rows[1].key;
      OneName(db, className, roll, a, b);
      PivotRowsDistinct(entries, 0, 1);
    }
  }
}
