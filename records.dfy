/**
 * The record store: the three tables `classroom_settings`, `roll_map` and
 * `attendance`, held as sequences of rows, the equality-filtered queries the
 * register runs against them, and the store-wide invariant that the class
 * lifecycle and the submission flow keep.
 */
module Records {
  import opened Wrappers

  /** A `classroom_settings` row. */
  datatype ClassConfig = ClassConfig(className: string, code: string, dailyLimit: int, isOpen: bool)

  /** A `roll_map` row: the name a roll number of a class is locked to. */
  datatype RollLock = RollLock(className: string, rollNumber: int, name: string)

  /** An `attendance` row; `date` is the day key the submission ran under. */
  datatype AttendanceEvent = AttendanceEvent(className: string, rollNumber: int, name: string, date: string)

  datatype Db = Db(settings: seq<ClassConfig>, rollMap: seq<RollLock>, attendance: seq<AttendanceEvent>)

  /** The outcome of one operation together with the store it leaves behind. */
  datatype Step<O> = Step(outcome: O, db: Db)

  /**
   * The store calls the core makes. A run is given at most one call that raises;
   * a call that raises writes nothing, and the run stops in the matching
   * `except` branch.
   */
  datatype StoreCall =
    | OpenClassesQuery | SettingsQuery | RollMapQuery | ExistingQuery | CountQuery
    | LockInsert | EventInsert
    | ExistsQuery | ClassInsert | AttendanceDelete | RollMapDelete | SettingsDelete
    | ClassesQuery | OpenUpdate | CloseUpdate | SettingsUpdate

  // ---------------------------------------------------------------- queries

  /** `select ... eq("class_name", name)`, first row. */
  function FindClass(settings: seq<ClassConfig>, name: string): (r: Option<ClassConfig>)
    ensures r.Some? ==> r.value in settings && r.value.className == name
    ensures r.None? <==> forall c :: c in settings ==> c.className != name
  {
    if settings == [] then None
    else
      var p := settings[..|settings| - 1];
      var last := settings[|settings| - 1];
      assert settings == p + [last];
      var found := FindClass(p, name);
      if found.Some? then found else if last.className == name then Some(last) else None
  }

  /** `select("class_name").eq("is_open", True)`: the names of the open classes, in table order. */
  function OpenClasses(settings: seq<ClassConfig>): (r: seq<string>)
    ensures |r| <= |settings|
    ensures forall n :: n in r <==> exists c :: c in settings && c.isOpen && c.className == n
  {
    if settings == [] then []
    else
      var p := settings[..|settings| - 1];
      var last := settings[|settings| - 1];
      assert settings == p + [last];
      OpenClasses(p) + (if last.isOpen then [last.className] else [])
  }

  /** The names of the open classes other than `selected` (`other_open`). */
  function OtherOpen(settings: seq<ClassConfig>, selected: string): (r: seq<string>)
    ensures forall n :: n in r <==> n != selected && exists c :: c in settings && c.isOpen && c.className == n
  {
    if settings == [] then []
    else
      var p := settings[..|settings| - 1];
      var last := settings[|settings| - 1];
      assert settings == p + [last];
      OtherOpen(p, selected) + (if last.isOpen && last.className != selected then [last.className] else [])
  }

  /** `roll_map` filtered on (class, roll), first row's name. */
  function LockOf(rollMap: seq<RollLock>, className: string, roll: int): (r: Option<string>)
    ensures r.Some? ==> RollLock(className, roll, r.value) in rollMap
    ensures r.None? <==> forall l :: l in rollMap ==> l.className != className || l.rollNumber != roll
  {
    if rollMap == [] then None
    else
      var p := rollMap[..|rollMap| - 1];
      var last := rollMap[|rollMap| - 1];
      assert rollMap == p + [last];
      var found := LockOf(p, className, roll);
      if found.Some? then found
      else if last.className == className && last.rollNumber == roll then Some(last.name)
      else None
  }

  /**
   * Some `attendance` row has this (class, roll, day): the existing-event
   * query returns data. Such a row is one the day's count includes.
   */
  predicate Marked(attendance: seq<AttendanceEvent>, className: string, roll: int, day: string): (b: bool)
    ensures b ==> DayCount(attendance, className, day) >= 1
  {
    exists e :: e in attendance && e.className == className && e.rollNumber == roll && e.date == day
  }

  /** `attendance` filtered on the class, in table order. */
  function ClassEvents(attendance: seq<AttendanceEvent>, className: string): (r: seq<AttendanceEvent>)
    ensures |r| <= |attendance|
    ensures forall e :: e in r <==> e in attendance && e.className == className
  {
    if attendance == [] then []
    else
      var p := attendance[..|attendance| - 1];
      var last := attendance[|attendance| - 1];
      assert attendance == p + [last];
      ClassEvents(p, className) + (if last.className == className then [last] else [])
  }

  /** `select("*", count="exact").eq("class_name", c).eq("date", day)`. */
  function DayCount(attendance: seq<AttendanceEvent>, className: string, day: string): (n: nat)
    ensures n <= |attendance|
    ensures n == 0 <==> forall e :: e in attendance ==> e.className != className || e.date != day
  {
    if attendance == [] then 0
    else
      var p := attendance[..|attendance| - 1];
      var last := attendance[|attendance| - 1];
      assert attendance == p + [last];
      DayCount(p, className, day) + (if last.className == className && last.date == day then 1 else 0)
  }

  // -------------------------------------------------------------- invariant

  /** No two `classroom_settings` rows share a name. */
  predicate UniqueClasses(settings: seq<ClassConfig>) {
    settings == [] ||
    var p := settings[..|settings| - 1];
    UniqueClasses(p) && FindClass(p, settings[|settings| - 1].className).None?
  }

  /** No two `roll_map` rows share a (class, roll) pair. */
  predicate UniqueLocks(rollMap: seq<RollLock>) {
    rollMap == [] ||
    var p := rollMap[..|rollMap| - 1];
    var last := rollMap[|rollMap| - 1];
    UniqueLocks(p) && LockOf(p, last.className, last.rollNumber).None?
  }

  /** No two `attendance` rows share a (class, roll, day) triple. */
  predicate UniqueEvents(attendance: seq<AttendanceEvent>) {
    attendance == [] ||
    var p := attendance[..|attendance| - 1];
    var last := attendance[|attendance| - 1];
    UniqueEvents(p) && !Marked(p, last.className, last.rollNumber, last.date)
  }

  /** Every daily limit is at least one. */
  predicate PositiveLimits(settings: seq<ClassConfig>) {
    forall c :: c in settings ==> c.dailyLimit >= 1
  }

  /** Every event has a lock for its (class, roll), and the lock holds the event's name. */
  predicate EventsLocked(db: Db) {
    forall e :: e in db.attendance ==> LockOf(db.rollMap, e.className, e.rollNumber) == Some(e.name)
  }

  /** Locks and events belong to classes that exist. */
  predicate KnownClasses(db: Db) {
    && (forall l :: l in db.rollMap ==> FindClass(db.settings, l.className).Some?)
    && (forall e :: e in db.attendance ==> FindClass(db.settings, e.className).Some?)
  }

  predicate Valid(db: Db) {
    && UniqueClasses(db.settings)
    && |OpenClasses(db.settings)| <= 1
    && PositiveLimits(db.settings)
    && UniqueLocks(db.rollMap)
    && UniqueEvents(db.attendance)
    && EventsLocked(db)
    && KnownClasses(db)
  }

  /** The empty store. */
  lemma EmptyValid()
    ensures Valid(Db([], [], []))
  {
  }

  /** In a valid store the lock of a (class, roll) pair is its only `roll_map` row. */
  lemma {:induction false} LockIsUnique(rollMap: seq<RollLock>, l: RollLock)
    requires UniqueLocks(rollMap)
    requires l in rollMap
    ensures LockOf(rollMap, l.className, l.rollNumber) == Some(l.name)
  {
    var p := rollMap[..|rollMap| - 1];
    var last := rollMap[|rollMap| - 1];
    assert rollMap == p + [last];
    if l != last {
      assert l in p;
      LockIsUnique(p, l);
    } else if LockOf(p, l.className, l.rollNumber).Some? {
      assert false;
    }
  }

  /** In a valid store at most one class is open, so the open list has one name or none. */
  lemma {:induction false} AtMostOneOpen(db: Db, a: ClassConfig, b: ClassConfig)
    requires Valid(db)
    requires a in db.settings && b in db.settings && a.isOpen && b.isOpen
    ensures a.className == b.className
  {
    var r := OpenClasses(db.settings);
    assert a.className in r;
    assert b.className in r;
    assert r[0] == a.className && r[0] == b.className;
  }

  // ------------------------------------------- how appends change the queries

  lemma LockOfAppend(rollMap: seq<RollLock>, l: RollLock, className: string, roll: int)
    ensures LockOf(rollMap + [l], className, roll) ==
      (if LockOf(rollMap, className, roll).Some? then LockOf(rollMap, className, roll)
       else if l.className == className && l.rollNumber == roll then Some(l.name) else None)
  {
    assert (rollMap + [l])[..|rollMap|] == rollMap;
  }

  lemma DayCountAppend(attendance: seq<AttendanceEvent>, e: AttendanceEvent, className: string, day: string)
    ensures DayCount(attendance + [e], className, day) ==
      DayCount(attendance, className, day) + (if e.className == className && e.date == day then 1 else 0)
  {
    assert (attendance + [e])[..|attendance|] == attendance;
  }

  /** The positions of the `attendance` rows of a class on a day. */
  function DayRows(attendance: seq<AttendanceEvent>, className: string, day: string): set<nat> {
    set i: nat | i < |attendance| && attendance[i].className == className && attendance[i].date == day
  }

  /** The day's count is the exact number of matching rows, as `count="exact"` returns. */
  lemma {:induction false} DayCountIsSize(attendance: seq<AttendanceEvent>, className: string, day: string)
    ensures DayCount(attendance, className, day) == |DayRows(attendance, className, day)|
    decreases |attendance|
  {
    if attendance != [] {
      var n := |attendance| - 1;
      var p, last := attendance[..n], attendance[n];
      DayCountIsSize(p, className, day);
      assert attendance == p + [last];
      DayCountAppend(p, last, className, day);
      var hit := if last.className == className && last.date == day then {n} else {};
      assert DayRows(attendance, className, day) == DayRows(p, className, day) + hit;
      assert n !in DayRows(p, className, day);
    }
  }

  /** A lock row for a known class and a free (class, roll) pair keeps the store valid. */
  lemma AddLockKeepsValid(db: Db, l: RollLock)
    requires Valid(db)
    requires FindClass(db.settings, l.className).Some?
    requires LockOf(db.rollMap, l.className, l.rollNumber).None?
    ensures Valid(db.(rollMap := db.rollMap + [l]))
  {
    var m := db.rollMap + [l];
    assert m[..|db.rollMap|] == db.rollMap;
    forall e | e in db.attendance
      ensures LockOf(m, e.className, e.rollNumber) == Some(e.name)
    {
      LockOfAppend(db.rollMap, l, e.className, e.rollNumber);
    }
  }

  /** An event for a known class, under its roll's locked name and not yet marked that day, keeps the store valid. */
  lemma AddEventKeepsValid(db: Db, e: AttendanceEvent)
    requires Valid(db)
    requires FindClass(db.settings, e.className).Some?
    requires LockOf(db.rollMap, e.className, e.rollNumber) == Some(e.name)
    requires !Marked(db.attendance, e.className, e.rollNumber, e.date)
    ensures Valid(db.(attendance := db.attendance + [e]))
  {
    var a := db.attendance + [e];
    assert a[..|db.attendance|] == db.attendance;
  }
}
