/**
 * The student submission flow of `show_student_panel`: the chain of
 * early-exit checks a submission goes through, the roll lock bound
 * first-write-wins, and the attendance insert. `Submit` is the flow as a
 * function of the store; `Registers.Store.Submit` runs it in place.
 */
module Admission {
  import opened Wrappers
  import opened Strings
  import opened Records

  /** What the student entered, and the day key the run is under. */
  datatype Submission = Submission(selected: string, rollText: string, nameText: string, codeInput: string, today: string)

  /** How the run ends: one value per message the panel can end on. */
  datatype Outcome =
    | ClassesUnavailable   // the open-class query raised
    | NoOpenClass          // no class is open
    | SettingsUnavailable  // the settings query raised
    | RollMissing          // blank roll number
    | RollNotNumber        // roll number is not a digit string
    | RollMapUnavailable   // the roll-map query raised
    | WrongCode            // code differs from the class's code
    | DuplicateCheckFailed // the same-day query raised
    | AlreadyMarked        // an event exists for (class, roll, today)
    | LimitCheckFailed     // the day-count query raised
    | LimitReached         // the day's count is at the limit
    | NameConflict         // the locked name differs from the name used
    | LockFailed           // the lock insert raised
    | InsertFailed         // the event insert raised
    | Accepted

  /** The roll-number field after `.strip()`, `isdigit()` and `int()`. */
  datatype RollEntry = Blank | NotNumber | Roll(n: nat)

  function ParseRoll(text: string): (r: RollEntry)
    ensures r == Blank <==> AllSpace(text)
    ensures r == NotNumber <==> !AllSpace(text) && !IsDigits(Strip(text))
    ensures r.Roll? ==> IsDigits(Strip(text)) && r.n == DigitsValue(Strip(text))
  {
    var raw := Strip(text);
    if raw == "" then Blank
    else if !IsDigits(raw) then NotNumber
    else Roll(DigitsValue(raw))
  }

  /** A roll number typed the way `str()` prints it is read back as that number. */
  lemma {:induction false} ParseRollShown(n: nat)
    ensures ParseRoll(ShowNat(n)) == Roll(n)
  {
    ShowNatRoundTrip(n);
    ParseRollDigits(ShowNat(n));
  }

  /** A digit string with nothing around it is read as its value. */
  lemma ParseRollDigits(s: string)
    requires IsDigits(s)
    ensures ParseRoll(s) == Roll(DigitsValue(s))
  {
    assert IsDigit(s[0]) && IsDigit(s[|s| - 1]);
    StripClean(s);
  }

  /** The class selectbox only lists open classes, so a selection is open whenever any class is. */
  predicate Offered(settings: seq<ClassConfig>, selected: string) {
    OpenClasses(settings) == [] || selected in OpenClasses(settings)
  }

  /** The name the submission is recorded under: the locked name if there is one, else the typed name. */
  function NameFor(db: Db, className: string, roll: nat, typed: string): string {
    match LockOf(db.rollMap, className, roll)
    case Some(locked) => locked
    case None => Strip(typed)
  }

  /** The checks after the roll has been read: the class's code, no event for the roll today, and room under the limit. */
  predicate Passes(db: Db, s: Submission, cfg: ClassConfig, roll: nat) {
    && s.codeInput == cfg.code
    && !Marked(db.attendance, s.selected, roll, s.today)
    && DayCount(db.attendance, s.selected, s.today) < cfg.dailyLimit
  }

  /** Everything a submission must pass when no store call fails. */
  predicate Admissible(db: Db, s: Submission) {
    && OpenClasses(db.settings) != []
    && FindClass(db.settings, s.selected).Some?
    && ParseRoll(s.rollText).Roll?
    && Passes(db, s, FindClass(db.settings, s.selected).value, ParseRoll(s.rollText).n)
  }

  /** The store once the lock for the roll is bound: a new lock row if there was none, else unchanged. */
  function Bind(db: Db, s: Submission, roll: nat): Db {
    if LockOf(db.rollMap, s.selected, roll).None?
    then db.(rollMap := db.rollMap + [RollLock(s.selected, roll, Strip(s.nameText))])
    else db
  }

  /** The store after a roll is admitted: the lock bound, then the event under the resolved name. */
  function AdmitRoll(db: Db, s: Submission, roll: nat): Db {
    var locked := Bind(db, s, roll);
    locked.(attendance := db.attendance + [AttendanceEvent(s.selected, roll, NameFor(db, s.selected, roll, s.nameText), s.today)])
  }

  /** The store after an admitted submission. */
  function Admit(db: Db, s: Submission): Db
    requires Admissible(db, s)
  {
    AdmitRoll(db, s, ParseRoll(s.rollText).n)
  }

  /**
   * The two inserts of an admitted roll: the lock row when there is none,
   * then the event under the locked name. A failing event insert leaves the
   * lock bound.
   */
  function Commit(db: Db, s: Submission, fault: Option<StoreCall>, roll: nat): (r: Step<Outcome>)
    ensures r.outcome == Accepted || r.outcome == InsertFailed || r.outcome == LockFailed
    ensures r.db.settings == db.settings
    ensures r.outcome == LockFailed ==> fault == Some(LockInsert) && r.db == db
    ensures r.outcome == InsertFailed ==> fault == Some(EventInsert) && r.db == Bind(db, s, roll)
    ensures r.outcome == Accepted <==> fault != Some(EventInsert) && r.outcome != LockFailed
    ensures r.outcome == Accepted ==> r.db == AdmitRoll(db, s, roll)
    ensures LockOf(db.rollMap, s.selected, roll).None? && fault == Some(LockInsert) ==> r == Step(LockFailed, db)
  {
    var lock := LockOf(db.rollMap, s.selected, roll);
    var name := if lock.Some? then lock.value else Strip(s.nameText);
    if lock.None? && fault == Some(LockInsert) then Step(LockFailed, db)
    else if lock.Some? && lock.value != name then Step(NameConflict, db)
    else
      var locked := if lock.None? then db.(rollMap := db.rollMap + [RollLock(s.selected, roll, name)]) else db;
      if fault == Some(EventInsert) then Step(InsertFailed, locked)
      else Step(Accepted, locked.(attendance := locked.attendance + [AttendanceEvent(s.selected, roll, name, s.today)]))
  }

  /**
   * The part of a submission after the roll has been read: the roll-map
   * lookup, the code check, the checks against the day's records, and the
   * two inserts.
   */
  function Record(db: Db, s: Submission, fault: Option<StoreCall>, cfg: ClassConfig, roll: nat): (r: Step<Outcome>)
    ensures r.outcome != NameConflict
    ensures r.db.settings == db.settings
    ensures r.outcome != Accepted && r.outcome != InsertFailed ==> r.db == db
    ensures r.outcome == Accepted ==> Passes(db, s, cfg, roll) && r.db == AdmitRoll(db, s, roll)
    ensures fault.None? && Passes(db, s, cfg, roll) ==> r.outcome == Accepted
    ensures r.outcome == InsertFailed ==> Passes(db, s, cfg, roll) && r.db == Bind(db, s, roll)
    ensures r.outcome == InsertFailed ==> fault == Some(EventInsert)
    ensures fault == Some(RollMapQuery) || fault == Some(ExistingQuery) || fault == Some(CountQuery) ==>
              r.outcome != Accepted && r.outcome != InsertFailed && r.db == db
  {
    if fault == Some(RollMapQuery) then Step(RollMapUnavailable, db)
    else
      if s.codeInput != cfg.code then Step(WrongCode, db)
      else if fault == Some(ExistingQuery) then Step(DuplicateCheckFailed, db)
      else if Marked(db.attendance, s.selected, roll, s.today) then Step(AlreadyMarked, db)
      else if fault == Some(CountQuery) then Step(LimitCheckFailed, db)
      else if DayCount(db.attendance, s.selected, s.today) >= cfg.dailyLimit then Step(LimitReached, db)
      else Commit(db, s, fault, roll)
  }

  /** The whole submission flow on a store, with at most one store call failing. */
  function Submit(db: Db, s: Submission, fault: Option<StoreCall>): (r: Step<Outcome>)
    requires Offered(db.settings, s.selected)
    ensures r.outcome != NameConflict
    ensures r.db.settings == db.settings
    ensures r.outcome != Accepted && r.outcome != InsertFailed ==> r.db == db
    ensures r.outcome == Accepted ==> Admissible(db, s) && r.db == Admit(db, s)
    ensures fault.None? && Admissible(db, s) ==> r.outcome == Accepted
    ensures r.outcome == InsertFailed ==>
      && Admissible(db, s)
      && r.db == Bind(db, s, ParseRoll(s.rollText).n)
    ensures r.outcome == InsertFailed ==> fault == Some(EventInsert)
    ensures fault == Some(OpenClassesQuery) || fault == Some(SettingsQuery) || fault == Some(RollMapQuery)
              || fault == Some(ExistingQuery) || fault == Some(CountQuery) ==>
              r.outcome != Accepted && r.outcome != InsertFailed && r.db == db
  {
    if fault == Some(OpenClassesQuery) then Step(ClassesUnavailable, db)
    else if OpenClasses(db.settings) == [] then Step(NoOpenClass, db)
    else if fault == Some(SettingsQuery) || FindClass(db.settings, s.selected).None? then
      Step(SettingsUnavailable, db)
    else
      match ParseRoll(s.rollText)
      case Blank => Step(RollMissing, db)
      case NotNumber => Step(RollNotNumber, db)
      case Roll(roll) => Record(db, s, fault, FindClass(db.settings, s.selected).value, roll)
  }
}

module AdmissionProperties {
  import opened Wrappers
  import opened Strings
  import opened Records
  import opened Admission

  /** Binding a lock for a known class, as a run that fails on the event insert leaves it, keeps the store valid. */
  lemma BindKeepsValid(db: Db, s: Submission, roll: nat)
    requires Valid(db) && FindClass(db.settings, s.selected).Some?
    ensures Valid(Bind(db, s, roll))
  {
    if LockOf(db.rollMap, s.selected, roll).None? {
      AddLockKeepsValid(db, RollLock(s.selected, roll, Strip(s.nameText)));
    }
  }

  /** An admitted submission keeps every store-wide invariant. */
  lemma AdmitKeepsValid(db: Db, s: Submission)
    requires Valid(db) && Admissible(db, s)
    ensures Valid(Admit(db, s))
  {
    var roll := ParseRoll(s.rollText).n;
    var name := NameFor(db, s.selected, roll, s.nameText);
    var db1 := Bind(db, s, roll);
    BindKeepsValid(db, s, roll);
    if LockOf(db.rollMap, s.selected, roll).None? {
      LockOfAppend(db.rollMap, RollLock(s.selected, roll, Strip(s.nameText)), s.selected, roll);
    }
    assert LockOf(db1.rollMap, s.selected, roll) == Some(name);
    AddEventKeepsValid(db1, AttendanceEvent(s.selected, roll, name, s.today));
  }

  /** Every run of the submission flow keeps the store-wide invariants. */
  lemma SubmitKeepsValid(db: Db, s: Submission, fault: Option<StoreCall>)
    requires Valid(db) && Offered(db.settings, s.selected)
    ensures Valid(Submit(db, s, fault).db)
  {
    var r := Submit(db, s, fault);
    if r.outcome == Accepted {
      AdmitKeepsValid(db, s);
    } else if r.outcome == InsertFailed {
      BindKeepsValid(db, s, ParseRoll(s.rollText).n);
    }
  }

  /** An admitted submission adds one event for the class and day, and the count stays within the limit. */
  lemma {:induction false} AdmitWithinLimit(db: Db, s: Submission)
    requires Admissible(db, s)
    ensures var cfg := FindClass(db.settings, s.selected).value;
            DayCount(Admit(db, s).attendance, s.selected, s.today) == DayCount(db.attendance, s.selected, s.today) + 1 <= cfg.dailyLimit
  {
    var roll := ParseRoll(s.rollText).n;
    DayCountAppend(db.attendance, AttendanceEvent(s.selected, roll, NameFor(db, s.selected, roll, s.nameText), s.today), s.selected, s.today);
  }

  /** With a lock in place, the event carries the locked name and the lock table is untouched; the typed name plays no part. */
  lemma LockedNameWins(db: Db, s: Submission, locked: string)
    requires Admissible(db, s)
    requires LockOf(db.rollMap, s.selected, ParseRoll(s.rollText).n) == Some(locked)
    ensures Admit(db, s).rollMap == db.rollMap
    ensures Admit(db, s).attendance == db.attendance + [AttendanceEvent(s.selected, ParseRoll(s.rollText).n, locked, s.today)]
  {
  }

  /** Without a lock, the typed name (stripped) is locked first and the event carries it. */
  lemma FirstSubmissionLocks(db: Db, s: Submission)
    requires Admissible(db, s)
    requires LockOf(db.rollMap, s.selected, ParseRoll(s.rollText).n).None?
    ensures var l := RollLock(s.selected, ParseRoll(s.rollText).n, Strip(s.nameText));
            Admit(db, s).rollMap == db.rollMap + [l]
    ensures Admit(db, s).attendance == db.attendance + [AttendanceEvent(s.selected, ParseRoll(s.rollText).n, Strip(s.nameText), s.today)]
  {
  }

  /** Submitting again for the same class, roll and day after an accepted run is refused as already marked. */
  lemma {:induction false} ResubmitAlreadyMarked(db: Db, s: Submission, t: Submission)
    requires Offered(db.settings, s.selected)
    requires Submit(db, s, None).outcome == Accepted
    requires t.selected == s.selected && t.today == s.today && t.codeInput == s.codeInput
    requires ParseRoll(t.rollText) == ParseRoll(s.rollText)
    ensures Submit(Submit(db, s, None).db, t, None) == Step(AlreadyMarked, Submit(db, s, None).db)
  {
    var db' := Submit(db, s, None).db;
    assert Admissible(db, s) && db' == Admit(db, s);
    var cfg := FindClass(db.settings, s.selected).value;
    var roll := ParseRoll(s.rollText).n;
    var e := AttendanceEvent(s.selected, roll, NameFor(db, s.selected, roll, s.nameText), s.today);
    assert e in db'.attendance;
    assert Submit(db', t, None) == Record(db', t, None, cfg, roll);
    RecordMarked(db', t, cfg, roll);
  }

  /** Once the code matches, an event for (class, roll, today) stops the rest of the submission. */
  lemma RecordMarked(db: Db, s: Submission, cfg: ClassConfig, roll: nat)
    requires s.codeInput == cfg.code
    requires Marked(db.attendance, s.selected, roll, s.today)
    ensures Record(db, s, None, cfg, roll) == Step(AlreadyMarked, db)
  {
  }

  /** A wrong code ends the run with the store unchanged, whatever the name or roll state. */
  lemma RejectsWrongCode(db: Db, s: Submission)
    requires Offered(db.settings, s.selected) && OpenClasses(db.settings) != []
    requires FindClass(db.settings, s.selected).Some? && ParseRoll(s.rollText).Roll?
    requires s.codeInput != FindClass(db.settings, s.selected).value.code
    ensures Submit(db, s, None) == Step(WrongCode, db)
  {
  }

  /** An existing event for (class, roll, today) ends the run with the store unchanged. */
  lemma RejectsDuplicate(db: Db, s: Submission)
    requires Offered(db.settings, s.selected) && OpenClasses(db.settings) != []
    requires FindClass(db.settings, s.selected).Some? && ParseRoll(s.rollText).Roll?
    requires s.codeInput == FindClass(db.settings, s.selected).value.code
    requires Marked(db.attendance, s.selected, ParseRoll(s.rollText).n, s.today)
    ensures Submit(db, s, None) == Step(AlreadyMarked, db)
  {
  }

  /** A day's count at the class limit ends the run with the store unchanged. */
  lemma RejectsAtLimit(db: Db, s: Submission)
    requires Offered(db.settings, s.selected) && OpenClasses(db.settings) != []
    requires FindClass(db.settings, s.selected).Some? && ParseRoll(s.rollText).Roll?
    requires s.codeInput == FindClass(db.settings, s.selected).value.code
    requires !Marked(db.attendance, s.selected, ParseRoll(s.rollText).n, s.today)
    requires DayCount(db.attendance, s.selected, s.today) >= FindClass(db.settings, s.selected).value.dailyLimit
    ensures Submit(db, s, None) == Step(LimitReached, db)
  {
  }

  /** With no open class the run stops before reading anything else. */
  lemma NothingOpen(db: Db, s: Submission, fault: Option<StoreCall>)
    requires OpenClasses(db.settings) == [] && fault != Some(OpenClassesQuery)
    ensures Submit(db, s, fault) == Step(NoOpenClass, db)
  {
  }

  /** A blank or non-numeric roll number ends the run before any roll-map read or write. */
  lemma RejectsBadRoll(db: Db, s: Submission, fault: Option<StoreCall>)
    requires Offered(db.settings, s.selected) && OpenClasses(db.settings) != []
    requires fault != Some(OpenClassesQuery) && fault != Some(SettingsQuery)
    requires FindClass(db.settings, s.selected).Some?
    requires !IsDigits(Strip(s.rollText))
    ensures Submit(db, s, fault).db == db
    ensures Submit(db, s, fault).outcome == if AllSpace(s.rollText) then RollMissing else RollNotNumber
  {
  }
}
