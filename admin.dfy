/**
 * The administrator's class lifecycle: creating and deleting a class from
 * the sidebar, and opening, closing and re-configuring the selected class.
 * Each operation is a function of the store; `Registers.Store` runs them in
 * place.
 */
module ClassAdmin {
  import opened Wrappers
  import opened Strings
  import opened Records

  datatype AdminOutcome =
    | BlankName            // nothing typed in "New Class Name"
    | AlreadyExists        // a row with that name exists
    | ClassCreated
    | SidebarError         // a sidebar store call raised
    | BlankTarget          // nothing typed in "Enter class to delete"
    | NotConfirmed         // confirmation is not "DELETE"
    | ClassDeleted
    | ClassesUnavailable   // the class-list query raised
    | NoClasses            // the settings table is empty
    | ConfigMissing        // no row for the selected name
    | OthersOpen(names: seq<string>)  // opening refused: these are open
    | UpdateFailed         // the update call raised
    | Opened
    | Closed
    | SettingsSaved

  /** The row a new class starts with: code "1234", limit 10, closed. */
  function NewClass(name: string): ClassConfig {
    ClassConfig(name, "1234", 10, false)
  }

  /** "Add Class": a name that is blank once stripped, or that exists, adds nothing; otherwise one default row is added under the name as typed. */
  function CreateClass(db: Db, input: string, fault: Option<StoreCall>): (r: Step<AdminOutcome>)
    ensures r.outcome != ClassCreated ==> r.db == db
    ensures r.outcome == ClassCreated <==>
      !AllSpace(input) && FindClass(db.settings, input).None? && fault != Some(ExistsQuery) && fault != Some(ClassInsert)
    ensures r.outcome == ClassCreated ==> r.db == db.(settings := db.settings + [NewClass(input)])
    ensures AllSpace(input) ==> r.outcome == BlankName
  {
    if Strip(input) == "" then Step(BlankName, db)
    else if fault == Some(ExistsQuery) then Step(SidebarError, db)
    else if FindClass(db.settings, input).Some? then Step(AlreadyExists, db)
    else if fault == Some(ClassInsert) then Step(SidebarError, db)
    else Step(ClassCreated, db.(settings := db.settings + [NewClass(input)]))
  }

  // --------------------------------------------------- deleting a class's rows

  /** `attendance.delete().eq("class_name", target)`. */
  function DropEvents(attendance: seq<AttendanceEvent>, target: string): (r: seq<AttendanceEvent>)
    ensures forall e :: e in r <==> e in attendance && e.className != target
  {
    if attendance == [] then []
    else
      var p := attendance[..|attendance| - 1];
      var last := attendance[|attendance| - 1];
      assert attendance == p + [last];
      DropEvents(p, target) + (if last.className != target then [last] else [])
  }

  /** `roll_map.delete().eq("class_name", target)`. */
  function DropLocks(rollMap: seq<RollLock>, target: string): (r: seq<RollLock>)
    ensures forall l :: l in r <==> l in rollMap && l.className != target
  {
    if rollMap == [] then []
    else
      var p := rollMap[..|rollMap| - 1];
      var last := rollMap[|rollMap| - 1];
      assert rollMap == p + [last];
      DropLocks(p, target) + (if last.className != target then [last] else [])
  }

  /** `classroom_settings.delete().eq("class_name", target)`. */
  function DropClass(settings: seq<ClassConfig>, target: string): (r: seq<ClassConfig>)
    ensures forall c :: c in r <==> c in settings && c.className != target
  {
    if settings == [] then []
    else
      var p := settings[..|settings| - 1];
      var last := settings[|settings| - 1];
      assert settings == p + [last];
      DropClass(p, target) + (if last.className != target then [last] else [])
  }

  /**
   * "Delete This Class" with the confirmation typed: deletes the class's
   * attendance, then its roll locks, then its settings row. A call that raises
   * stops the cascade where it is.
   */
  function DeleteClass(db: Db, target: string, confirm: string, fault: Option<StoreCall>): (r: Step<AdminOutcome>)
    ensures r.outcome == ClassDeleted <==>
      !AllSpace(target) && confirm == "DELETE" && fault != Some(AttendanceDelete) && fault != Some(RollMapDelete) && fault != Some(SettingsDelete)
    ensures r.outcome != ClassDeleted && r.outcome != SidebarError ==> r.db == db
    ensures r.outcome == ClassDeleted ==>
      && (forall c :: c in r.db.settings <==> c in db.settings && c.className != target)
      && (forall l :: l in r.db.rollMap <==> l in db.rollMap && l.className != target)
      && (forall e :: e in r.db.attendance <==> e in db.attendance && e.className != target)
    ensures fault == Some(AttendanceDelete) ==> r.db == db
    ensures fault == Some(RollMapDelete) && r.outcome == SidebarError ==>
      && r.db.settings == db.settings && r.db.rollMap == db.rollMap
      && (forall e :: e in r.db.attendance <==> e in db.attendance && e.className != target)
    ensures fault == Some(SettingsDelete) && r.outcome == SidebarError ==>
      && r.db.settings == db.settings
      && (forall l :: l in r.db.rollMap <==> l in db.rollMap && l.className != target)
      && (forall e :: e in r.db.attendance <==> e in db.attendance && e.className != target)
  {
    if Strip(target) == "" then Step(BlankTarget, db)
    else if confirm != "DELETE" then Step(NotConfirmed, db)
    else if fault == Some(AttendanceDelete) then Step(SidebarError, db)
    else
      var db1 := db.(attendance := DropEvents(db.attendance, target));
      if fault == Some(RollMapDelete) then Step(SidebarError, db1)
      else
        var db2 := db1.(rollMap := DropLocks(db.rollMap, target));
        if fault == Some(SettingsDelete) then Step(SidebarError, db2)
        else Step(ClassDeleted, db2.(settings := DropClass(db.settings, target)))
  }

  // --------------------------------------------- controls of the selected class

  /** Sets `is_open` to `b` on the rows named `selected` (`update(...).eq("class_name", selected)`). */
  function SetOpen(settings: seq<ClassConfig>, selected: string, b: bool): (r: seq<ClassConfig>)
    ensures |r| == |settings|
    ensures forall i :: 0 <= i < |r| ==>
      r[i] == if settings[i].className == selected then settings[i].(isOpen := b) else settings[i]
  {
    if settings == [] then []
    else
      var p := settings[..|settings| - 1];
      var last := settings[|settings| - 1];
      SetOpen(p, selected, b) + [if last.className == selected then last.(isOpen := b) else last]
  }

  /** Sets `code` and `daily_limit` on the rows named `selected`. */
  function SetSettings(settings: seq<ClassConfig>, selected: string, code: string, limit: int): (r: seq<ClassConfig>)
    ensures |r| == |settings|
    ensures forall i :: 0 <= i < |r| ==>
      r[i] == if settings[i].className == selected then settings[i].(code := code, dailyLimit := limit) else settings[i]
  {
    if settings == [] then []
    else
      var p := settings[..|settings| - 1];
      var last := settings[|settings| - 1];
      SetSettings(p, selected, code, limit) + [if last.className == selected then last.(code := code, dailyLimit := limit) else last]
  }

  /** Where `class_controls` stops before any control acts: the list failed, is empty, or lacks the selection. */
  function Stopped(db: Db, selected: string, fault: Option<StoreCall>): (r: Option<AdminOutcome>)
    ensures r.None? <==> fault != Some(ClassesQuery) && FindClass(db.settings, selected).Some?
  {
    if fault == Some(ClassesQuery) then Some(ClassesUnavailable)
    else if db.settings == [] then Some(NoClasses)
    else if FindClass(db.settings, selected).None? then Some(ConfigMissing)
    else None
  }

  /** "Open Attendance": refused, naming them, while any other class is open; otherwise opens the selected class. */
  function OpenClass(db: Db, selected: string, fault: Option<StoreCall>): (r: Step<AdminOutcome>)
    ensures r.outcome != Opened ==> r.db == db
    ensures r.outcome == Opened <==>
      Stopped(db, selected, fault).None? && OtherOpen(db.settings, selected) == [] && fault != Some(OpenUpdate)
    ensures r.outcome.OthersOpen? ==> r.outcome.names == OtherOpen(db.settings, selected) != []
    ensures r.outcome == Opened ==> r.db == db.(settings := SetOpen(db.settings, selected, true))
  {
    var stop := Stopped(db, selected, fault);
    if stop.Some? then Step(stop.value, db)
    else
      var others := OtherOpen(db.settings, selected);
      if others != [] then Step(OthersOpen(others), db)
      else if fault == Some(OpenUpdate) then Step(UpdateFailed, db)
      else Step(Opened, db.(settings := SetOpen(db.settings, selected, true)))
  }

  /** "Close Attendance": closes the selected class. */
  function CloseClass(db: Db, selected: string, fault: Option<StoreCall>): (r: Step<AdminOutcome>)
    ensures r.outcome != Closed ==> r.db == db
    ensures r.outcome == Closed <==> Stopped(db, selected, fault).None? && fault != Some(CloseUpdate)
    ensures r.outcome == Closed ==> r.db == db.(settings := SetOpen(db.settings, selected, false))
  {
    var stop := Stopped(db, selected, fault);
    if stop.Some? then Step(stop.value, db)
    else if fault == Some(CloseUpdate) then Step(UpdateFailed, db)
    else Step(Closed, db.(settings := SetOpen(db.settings, selected, false)))
  }

  /** "Save Settings": the limit field only offers values of at least one. */
  function UpdateSettings(db: Db, selected: string, code: string, limit: int, fault: Option<StoreCall>): (r: Step<AdminOutcome>)
    requires limit >= 1
    ensures r.outcome != SettingsSaved ==> r.db == db
    ensures r.outcome == SettingsSaved <==> Stopped(db, selected, fault).None? && fault != Some(SettingsUpdate)
    ensures r.outcome == SettingsSaved ==> r.db == db.(settings := SetSettings(db.settings, selected, code, limit))
  {
    var stop := Stopped(db, selected, fault);
    if stop.Some? then Step(stop.value, db)
    else if fault == Some(SettingsUpdate) then Step(UpdateFailed, db)
    else Step(SettingsSaved, db.(settings := SetSettings(db.settings, selected, code, limit)))
  }
}

module ClassAdminProperties {
  import opened Wrappers
  import opened Strings
  import opened Records
  import opened ClassAdmin

  // -------------------------------------------- rows that keep their names

  predicate SameNames(s: seq<ClassConfig>, r: seq<ClassConfig>) {
    |s| == |r| && forall i :: 0 <= i < |s| ==> s[i].className == r[i].className
  }

  /** Rewriting fields other than the name keeps every lookup by name and the uniqueness of names. */
  lemma {:induction false} SameNamesLookup(s: seq<ClassConfig>, r: seq<ClassConfig>)
    requires SameNames(s, r)
    ensures forall n :: FindClass(r, n).Some? <==> FindClass(s, n).Some?
    ensures UniqueClasses(r) <==> UniqueClasses(s)
  {
    if s != [] {
      var p, q := s[..|s| - 1], r[..|r| - 1];
      assert SameNames(p, q);
      SameNamesLookup(p, q);
      assert s == p + [s[|s| - 1]] && r == q + [r[|r| - 1]];
    }
  }

  /** With no other class open, opening the selected class leaves exactly it open. */
  lemma {:induction false} OpenLeavesOnlySelected(s: seq<ClassConfig>, selected: string)
    requires UniqueClasses(s) && OtherOpen(s, selected) == []
    ensures OpenClasses(SetOpen(s, selected, true)) == if FindClass(s, selected).Some? then [selected] else []
  {
    if s != [] {
      var p := s[..|s| - 1];
      var last := s[|s| - 1];
      assert s == p + [last];
      var r := SetOpen(s, selected, true);
      assert r[..|r| - 1] == SetOpen(p, selected, true);
      assert OtherOpen(p, selected) == [];
      OpenLeavesOnlySelected(p, selected);
    }
  }

  /** Closing the selected class removes exactly it from the open list. */
  lemma {:induction false} CloseRemovesSelected(s: seq<ClassConfig>, selected: string)
    ensures |OpenClasses(SetOpen(s, selected, false))| <= |OpenClasses(s)|
    ensures forall n :: n in OpenClasses(SetOpen(s, selected, false)) <==> n in OpenClasses(s) && n != selected
  {
    if s != [] {
      var p := s[..|s| - 1];
      var last := s[|s| - 1];
      assert s == p + [last];
      var r := SetOpen(s, selected, false);
      assert r[..|r| - 1] == SetOpen(p, selected, false);
      CloseRemovesSelected(p, selected);
    }
  }

  /** Changing code and limit leaves the open list as it was. */
  lemma {:induction false} SettingsKeepOpen(s: seq<ClassConfig>, selected: string, code: string, limit: int)
    ensures OpenClasses(SetSettings(s, selected, code, limit)) == OpenClasses(s)
  {
    if s != [] {
      var p := s[..|s| - 1];
      var r := SetSettings(s, selected, code, limit);
      assert r[..|r| - 1] == SetSettings(p, selected, code, limit);
      SettingsKeepOpen(p, selected, code, limit);
    }
  }

  // ------------------------------------------------ deleting keeps uniqueness

  lemma {:induction false} DropEventsUnique(att: seq<AttendanceEvent>, target: string)
    requires UniqueEvents(att)
    ensures UniqueEvents(DropEvents(att, target))
  {
    if att != [] {
      var p := att[..|att| - 1];
      var last := att[|att| - 1];
      assert UniqueEvents(p) && !Marked(p, last.className, last.rollNumber, last.date);
      DropEventsUnique(p, target);
      var d := DropEvents(p, target);
      if last.className != target {
        var r := d + [last];
        assert DropEvents(att, target) == r;
        assert r[..|r| - 1] == d && r[|r| - 1] == last;
        assert UniqueEvents(r);
      } else {
        assert DropEvents(att, target) == d;
      }
    }
  }

  lemma {:induction false} DropLocksUnique(rollMap: seq<RollLock>, target: string)
    requires UniqueLocks(rollMap)
    ensures UniqueLocks(DropLocks(rollMap, target))
    ensures forall c, roll :: c != target ==> LockOf(DropLocks(rollMap, target), c, roll) == LockOf(rollMap, c, roll)
  {
    if rollMap != [] {
      var p := rollMap[..|rollMap| - 1];
      var last := rollMap[|rollMap| - 1];
      assert UniqueLocks(p) && LockOf(p, last.className, last.rollNumber).None?;
      DropLocksUnique(p, target);
      var d := DropLocks(p, target);
      assert rollMap == p + [last];
      if last.className != target {
        var r := d + [last];
        assert DropLocks(rollMap, target) == r;
        assert r[..|r| - 1] == d && r[|r| - 1] == last;
        assert LockOf(d, last.className, last.rollNumber).None?;
        assert UniqueLocks(r);
        forall c, roll | c != target ensures LockOf(r, c, roll) == LockOf(rollMap, c, roll) {
          LockOfAppend(d, last, c, roll);
          LockOfAppend(p, last, c, roll);
        }
      } else {
        assert DropLocks(rollMap, target) == d;
        forall c, roll | c != target ensures LockOf(d, c, roll) == LockOf(rollMap, c, roll) {
          LockOfAppend(p, last, c, roll);
        }
      }
    }
  }

  lemma {:induction false} DropClassUnique(settings: seq<ClassConfig>, target: string)
    requires UniqueClasses(settings)
    ensures UniqueClasses(DropClass(settings, target))
  {
    if settings != [] {
      var p := settings[..|settings| - 1];
      var last := settings[|settings| - 1];
      assert UniqueClasses(p) && FindClass(p, last.className).None?;
      DropClassUnique(p, target);
      var d := DropClass(p, target);
      if last.className != target {
        var r := d + [last];
        assert DropClass(settings, target) == r;
        assert r[..|r| - 1] == d && r[|r| - 1] == last;
        assert UniqueClasses(r);
      } else {
        assert DropClass(settings, target) == d;
      }
    }
  }

  lemma {:induction false} DropClassOpen(settings: seq<ClassConfig>, target: string)
    ensures |OpenClasses(DropClass(settings, target))| <= |OpenClasses(settings)|
  {
    if settings != [] {
      var p := settings[..|settings| - 1];
      var last := settings[|settings| - 1];
      DropClassOpen(p, target);
      var d := DropClass(p, target);
      if last.className != target {
        var r := d + [last];
        assert DropClass(settings, target) == r;
        assert r[..|r| - 1] == d && r[|r| - 1] == last;
      } else {
        assert DropClass(settings, target) == d;
      }
    }
  }

  // -------------------------------------------------- every operation is safe

  /** Replacing the settings table keeps a valid store valid when names stay unique, at most one class is open, limits stay positive and no class disappears. */
  lemma SettingsSwap(db: Db, s: seq<ClassConfig>)
    requires Valid(db)
    requires UniqueClasses(s) && |OpenClasses(s)| <= 1 && PositiveLimits(s)
    requires forall n :: FindClass(db.settings, n).Some? ==> FindClass(s, n).Some?
    ensures Valid(db.(settings := s))
  {
    var db' := db.(settings := s);
    assert EventsLocked(db');
    assert KnownClasses(db');
  }

  /** A row-wise rewrite that keeps each row's limit keeps the limits positive. */
  lemma SameLimits(s: seq<ClassConfig>, r: seq<ClassConfig>)
    requires |s| == |r| && forall i :: 0 <= i < |s| ==> r[i].dailyLimit == s[i].dailyLimit
    requires PositiveLimits(s)
    ensures PositiveLimits(r)
  {
    forall c | c in r ensures c.dailyLimit >= 1 {
      var i :| 0 <= i < |r| && r[i] == c;
      assert s[i] in s;
    }
  }

  lemma CreateKeepsValid(db: Db, input: string, fault: Option<StoreCall>)
    requires Valid(db)
    ensures Valid(CreateClass(db, input, fault).db)
  {
    var r := CreateClass(db, input, fault);
    if r.outcome == ClassCreated {
      var s := db.settings + [NewClass(input)];
      assert s[..|s| - 1] == db.settings;
      forall n | FindClass(db.settings, n).Some? ensures FindClass(s, n).Some? {
        assert FindClass(db.settings, n).value in s;
      }
      SettingsSwap(db, s);
    }
  }

  /** First cascade step: removing the class's events keeps a valid store valid. */
  lemma DropEventsKeepsValid(db: Db, target: string)
    requires Valid(db)
    ensures Valid(db.(attendance := DropEvents(db.attendance, target)))
  {
    DropEventsUnique(db.attendance, target);
  }

  /** Second step: once the class has no events, removing its locks keeps the store valid. */
  lemma DropLocksKeepsValid(db: Db, target: string)
    requires Valid(db)
    requires forall e :: e in db.attendance ==> e.className != target
    ensures Valid(db.(rollMap := DropLocks(db.rollMap, target)))
  {
    DropLocksUnique(db.rollMap, target);
  }

  /** Last step: once the class has no locks or events, removing its settings row keeps the store valid. */
  lemma DropClassKeepsValid(db: Db, target: string)
    requires Valid(db)
    requires forall e :: e in db.attendance ==> e.className != target
    requires forall l :: l in db.rollMap ==> l.className != target
    ensures Valid(db.(settings := DropClass(db.settings, target)))
  {
    var st := DropClass(db.settings, target);
    DropClassUnique(db.settings, target);
    DropClassOpen(db.settings, target);
    forall c | c != target && FindClass(db.settings, c).Some? ensures FindClass(st, c).Some? {
      assert FindClass(db.settings, c).value in st;
    }
    var db' := db.(settings := st);
    assert KnownClasses(db');
  }

  /** Each step of the cascade leaves a valid store, so a cascade cut short by a failing call does too. */
  lemma DeleteKeepsValid(db: Db, target: string, confirm: string, fault: Option<StoreCall>)
    requires Valid(db)
    ensures Valid(DeleteClass(db, target, confirm, fault).db)
  {
    var db1 := db.(attendance := DropEvents(db.attendance, target));
    DropEventsKeepsValid(db, target);
    var db2 := db1.(rollMap := DropLocks(db.rollMap, target));
    DropLocksKeepsValid(db1, target);
    DropClassKeepsValid(db2, target);
  }

  /** The settings table after setting `is_open` on the selected rows keeps names, limits and lookups. */
  lemma SetOpenKeepsRows(s: seq<ClassConfig>, selected: string, b: bool)
    requires UniqueClasses(s) && PositiveLimits(s)
    ensures UniqueClasses(SetOpen(s, selected, b)) && PositiveLimits(SetOpen(s, selected, b))
    ensures forall n :: FindClass(s, n).Some? ==> FindClass(SetOpen(s, selected, b), n).Some?
  {
    var r := SetOpen(s, selected, b);
    SameNamesLookup(s, r);
    SameLimits(s, r);
  }

  lemma OpenKeepsValid(db: Db, selected: string, fault: Option<StoreCall>)
    requires Valid(db)
    ensures Valid(OpenClass(db, selected, fault).db)
  {
    if OpenClass(db, selected, fault).outcome == Opened {
      var s := SetOpen(db.settings, selected, true);
      SetOpenKeepsRows(db.settings, selected, true);
      OpenLeavesOnlySelected(db.settings, selected);
      SettingsSwap(db, s);
    }
  }

  lemma CloseKeepsValid(db: Db, selected: string, fault: Option<StoreCall>)
    requires Valid(db)
    ensures Valid(CloseClass(db, selected, fault).db)
  {
    if CloseClass(db, selected, fault).outcome == Closed {
      var s := SetOpen(db.settings, selected, false);
      SetOpenKeepsRows(db.settings, selected, false);
      CloseRemovesSelected(db.settings, selected);
      SettingsSwap(db, s);
    }
  }

  lemma SetSettingsKeepsRows(s: seq<ClassConfig>, selected: string, code: string, limit: int)
    requires UniqueClasses(s) && PositiveLimits(s) && limit >= 1
    ensures UniqueClasses(SetSettings(s, selected, code, limit)) && PositiveLimits(SetSettings(s, selected, code, limit))
    ensures forall n :: FindClass(s, n).Some? ==> FindClass(SetSettings(s, selected, code, limit), n).Some?
  {
    var r := SetSettings(s, selected, code, limit);
    SameNamesLookup(s, r);
    forall c | c in r ensures c.dailyLimit >= 1 {
      var i :| 0 <= i < |r| && r[i] == c;
      assert s[i] in s;
    }
  }

  lemma UpdateKeepsValid(db: Db, selected: string, code: string, limit: int, fault: Option<StoreCall>)
    requires Valid(db) && limit >= 1
    ensures Valid(UpdateSettings(db, selected, code, limit, fault).db)
  {
    if UpdateSettings(db, selected, code, limit, fault).outcome == SettingsSaved {
      var s := SetSettings(db.settings, selected, code, limit);
      SetSettingsKeepsRows(db.settings, selected, code, limit);
      SettingsKeepOpen(db.settings, selected, code, limit);
      SettingsSwap(db, s);
    }
  }

  /** Opening never leaves a second class open: after a successful open the selected class is the only open one. */
  lemma OpenedIsOnlyOpen(db: Db, selected: string, fault: Option<StoreCall>)
    requires Valid(db)
    requires OpenClass(db, selected, fault).outcome == Opened
    ensures OpenClasses(OpenClass(db, selected, fault).db.settings) == [selected]
  {
    OpenLeavesOnlySelected(db.settings, selected);
  }

  /** After a delete nothing of the class is left in any table. */
  lemma DeletedLeavesNothing(db: Db, target: string, fault: Option<StoreCall>)
    requires DeleteClass(db, target, "DELETE", fault).outcome == ClassDeleted
    ensures var d := DeleteClass(db, target, "DELETE", fault).db;
            && FindClass(d.settings, target).None?
            && (forall roll :: LockOf(d.rollMap, target, roll).None?)
            && (forall roll, day :: !Marked(d.attendance, target, roll, day))
  {
  }
}
