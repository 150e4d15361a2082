/**
 * The record store as the panels use it: three tables updated in place.
 * Each method runs one panel action step by step, with the early exits of
 * the student panel and the administrator panel, and is proved to end in the outcome and the tables that the
 * action's function in `Admission` or `ClassAdmin` gives for the tables it
 * started from; every method therefore keeps `Records.Valid`.
 */
module Registers {
  import opened Wrappers
  import opened Strings
  import opened Records
  import Admission
  import AdmissionProperties
  import ClassAdmin
  import ClassAdminProperties

  class Store {
    var settings: seq<ClassConfig>
    var rollMap: seq<RollLock>
    var attendance: seq<AttendanceEvent>

    /** The three tables as one value. */
    function Tables(): Db
      reads this
    {
      Db(settings, rollMap, attendance)
    }

    constructor ()
      ensures Tables() == Db([], [], []) && Valid(Tables())
    {
      settings, rollMap, attendance := [], [], [];
    }

    /** "Submit Attendance" in the student panel. */
    method Submit(s: Admission.Submission, fault: Option<StoreCall>) returns (outcome: Admission.Outcome)
      requires Admission.Offered(settings, s.selected)
      modifies this
      ensures Step(outcome, Tables()) == Admission.Submit(old(Tables()), s, fault)
      ensures Valid(old(Tables())) ==> Valid(Tables())
    {
      ghost var before := Tables();
      if Valid(before) { AdmissionProperties.SubmitKeepsValid(before, s, fault); }

      if fault == Some(OpenClassesQuery) { return Admission.ClassesUnavailable; }
      var classList := OpenClasses(settings);
      if classList == [] { return Admission.NoOpenClass; }

      if fault == Some(SettingsQuery) { return Admission.SettingsUnavailable; }
      var config := FindClass(settings, s.selected);
      if config.None? { return Admission.SettingsUnavailable; }

      var entry := Admission.ParseRoll(s.rollText);
      if entry == Admission.Blank { return Admission.RollMissing; }
      if entry == Admission.NotNumber { return Admission.RollNotNumber; }
      var roll := entry.n;

      outcome := Record(s, fault, config.value, roll);
    }

    /** The checks against the day's records and the two inserts of a submission. */
    method Record(s: Admission.Submission, fault: Option<StoreCall>, cfg: ClassConfig, roll: nat) returns (outcome: Admission.Outcome)
      modifies this
      ensures Step(outcome, Tables()) == Admission.Record(old(Tables()), s, fault, cfg, roll)
    {
      if fault == Some(RollMapQuery) { return Admission.RollMapUnavailable; }
      if s.codeInput != cfg.code { return Admission.WrongCode; }

      if fault == Some(ExistingQuery) { return Admission.DuplicateCheckFailed; }
      if Marked(attendance, s.selected, roll, s.today) { return Admission.AlreadyMarked; }

      if fault == Some(CountQuery) { return Admission.LimitCheckFailed; }
      var count := DayCount(attendance, s.selected, s.today);
      if count >= cfg.dailyLimit { return Admission.LimitReached; }

      outcome := Commit(s, fault, roll);
    }

    /** The lock insert when the roll has no lock, then the event insert. */
    method Commit(s: Admission.Submission, fault: Option<StoreCall>, roll: nat) returns (outcome: Admission.Outcome)
      modifies this
      ensures Step(outcome, Tables()) == Admission.Commit(old(Tables()), s, fault, roll)
    {
      var lock := LockOf(rollMap, s.selected, roll);
      var name := if lock.Some? then lock.value else Strip(s.nameText);
      if lock.None? {
        if fault == Some(LockInsert) { return Admission.LockFailed; }
        rollMap := rollMap + [RollLock(s.selected, roll, name)];
      } else if lock.value != name {
        return Admission.NameConflict;
      }

      if fault == Some(EventInsert) { return Admission.InsertFailed; }
      attendance := attendance + [AttendanceEvent(s.selected, roll, name, s.today)];
      outcome := Admission.Accepted;
    }

    /** "Add Class" in the sidebar. */
    method CreateClass(input: string, fault: Option<StoreCall>) returns (outcome: ClassAdmin.AdminOutcome)
      modifies this
      ensures Step(outcome, Tables()) == ClassAdmin.CreateClass(old(Tables()), input, fault)
      ensures Valid(old(Tables())) ==> Valid(Tables())
    {
      ghost var before := Tables();
      if Valid(before) { ClassAdminProperties.CreateKeepsValid(before, input, fault); }

      if Strip(input) == "" { return ClassAdmin.BlankName; }
      if fault == Some(ExistsQuery) { return ClassAdmin.SidebarError; }
      var existing := FindClass(settings, input);
      if existing.Some? { return ClassAdmin.AlreadyExists; }
      if fault == Some(ClassInsert) { return ClassAdmin.SidebarError; }
      settings := settings + [ClassAdmin.NewClass(input)];
      outcome := ClassAdmin.ClassCreated;
    }

    /** "Delete This Class" in the sidebar, with what was typed in the confirmation field. */
    method DeleteClass(target: string, confirm: string, fault: Option<StoreCall>) returns (outcome: ClassAdmin.AdminOutcome)
      modifies this
      ensures Step(outcome, Tables()) == ClassAdmin.DeleteClass(old(Tables()), target, confirm, fault)
      ensures Valid(old(Tables())) ==> Valid(Tables())
    {
      ghost var before := Tables();
      if Valid(before) { ClassAdminProperties.DeleteKeepsValid(before, target, confirm, fault); }

      if Strip(target) == "" { return ClassAdmin.BlankTarget; }
      if confirm != "DELETE" { return ClassAdmin.NotConfirmed; }
      if fault == Some(AttendanceDelete) { return ClassAdmin.SidebarError; }
      attendance := ClassAdmin.DropEvents(attendance, target);
      if fault == Some(RollMapDelete) { return ClassAdmin.SidebarError; }
      rollMap := ClassAdmin.DropLocks(rollMap, target);
      if fault == Some(SettingsDelete) { return ClassAdmin.SidebarError; }
      settings := ClassAdmin.DropClass(settings, target);
      outcome := ClassAdmin.ClassDeleted;
    }

    /** "Open Attendance" for the selected class. */
    method OpenClass(selected: string, fault: Option<StoreCall>) returns (outcome: ClassAdmin.AdminOutcome)
      modifies this
      ensures Step(outcome, Tables()) == ClassAdmin.OpenClass(old(Tables()), selected, fault)
      ensures Valid(old(Tables())) ==> Valid(Tables())
    {
      ghost var before := Tables();
      if Valid(before) { ClassAdminProperties.OpenKeepsValid(before, selected, fault); }

      var stop := ClassAdmin.Stopped(Tables(), selected, fault);
      if stop.Some? { return stop.value; }
      var otherOpen := OtherOpen(settings, selected);
      if otherOpen != [] { return ClassAdmin.OthersOpen(otherOpen); }
      if fault == Some(OpenUpdate) { return ClassAdmin.UpdateFailed; }
      settings := ClassAdmin.SetOpen(settings, selected, true);
      outcome := ClassAdmin.Opened;
    }

    /** "Close Attendance" for the selected class. */
    method CloseClass(selected: string, fault: Option<StoreCall>) returns (outcome: ClassAdmin.AdminOutcome)
      modifies this
      ensures Step(outcome, Tables()) == ClassAdmin.CloseClass(old(Tables()), selected, fault)
      ensures Valid(old(Tables())) ==> Valid(Tables())
    {
      ghost var before := Tables();
      if Valid(before) { ClassAdminProperties.CloseKeepsValid(before, selected, fault); }

      var stop := ClassAdmin.Stopped(Tables(), selected, fault);
      if stop.Some? { return stop.value; }
      if fault == Some(CloseUpdate) { return ClassAdmin.UpdateFailed; }
      settings := ClassAdmin.SetOpen(settings, selected, false);
      outcome := ClassAdmin.Closed;
    }

    /** "Save Settings" for the selected class; the limit field offers only values of at least one. */
    method UpdateSettings(selected: string, code: string, limit: int, fault: Option<StoreCall>) returns (outcome: ClassAdmin.AdminOutcome)
      requires limit >= 1
      modifies this
      ensures Step(outcome, Tables()) == ClassAdmin.UpdateSettings(old(Tables()), selected, code, limit, fault)
      ensures Valid(old(Tables())) ==> Valid(Tables())
    {
      ghost var before := Tables();
      if Valid(before) { ClassAdminProperties.UpdateKeepsValid(before, selected, code, limit, fault); }

      var stop := ClassAdmin.Stopped(Tables(), selected, fault);
      if stop.Some? { return stop.value; }
      if fault == Some(SettingsUpdate) { return ClassAdmin.UpdateFailed; }
      settings := ClassAdmin.SetSettings(settings, selected, code, limit);
      outcome := ClassAdmin.SettingsSaved;
    }
  }
}
