/**
 * The day boundary. `current_date()` returns the full date and time, and
 * the student panel and the archive push both use it as the day's key,
 * so a "day" lasts one second. The members below show what that text does
 * and what the day key (`"%Y-%m-%d"`) does instead.
 */
module DayBoundary {
  import opened Wrappers
  import opened Strings
  import opened Records
  import opened Admission
  import opened AdmissionProperties
  import opened Clock
  import opened Archive

  /** A roll admitted under one day text can be admitted again under another text the class has no events for. */
  lemma AdmissibleUnderOtherText(db: Db, s: Submission, d1: string, d2: string)
    requires Admissible(db, s.(today := d1))
    requires d1 != d2 && DayCount(db.attendance, s.selected, d2) == 0
    ensures Admissible(Admit(db, s.(today := d1)), s.(today := d2))
  {
    var roll := ParseRoll(s.rollText).n;
    var e1 := AttendanceEvent(s.selected, roll, NameFor(db, s.selected, roll, s.nameText), d1);
    assert Admit(db, s.(today := d1)).attendance == db.attendance + [e1];
    DayCountAppend(db.attendance, e1, s.selected, d2);
  }

  /** With the full stamp as `today`, a roll accepted at one second is accepted again a second later on the same day. */
  lemma {:induction false} AsWrittenMarksTwice(db: Db, s: Submission, t1: Instant, t2: Instant)
    requires ValidInstant(t1) && ValidInstant(t2) && SameDay(t1, t2) && t1.second != t2.second
    requires Offered(db.settings, s.selected)
    requires Admissible(db, s.(today := Stamp(t1)))
    requires DayCount(db.attendance, s.selected, Stamp(t2)) == 0
    ensures var db1 := Submit(db, s.(today := Stamp(t1)), None).db;
            var r := Submit(db1, s.(today := Stamp(t2)), None);
            var roll := ParseRoll(s.rollText).n;
            && r.outcome == Accepted
            && Marked(r.db.attendance, s.selected, roll, Stamp(t1))
            && Marked(r.db.attendance, s.selected, roll, Stamp(t2))
            && Stamp(t1)[..10] == Stamp(t2)[..10]
  {
    var s1, s2 := s.(today := Stamp(t1)), s.(today := Stamp(t2));
    var roll := ParseRoll(s.rollText).n;
    StampNamesSecond(t1, t2);
    DayKeyNamesDay(t1, t2);
    var db1 := Admit(db, s1);
    AdmissibleUnderOtherText(db, s, Stamp(t1), Stamp(t2));
    var db2 := Admit(db1, s2);
    var e1 := AttendanceEvent(s.selected, roll, NameFor(db, s.selected, roll, s.nameText), Stamp(t1));
    var e2 := AttendanceEvent(s.selected, roll, NameFor(db1, s.selected, roll, s.nameText), Stamp(t2));
    assert db2.attendance == db.attendance + [e1] + [e2];
    assert e1 in db2.attendance && e2 in db2.attendance;
  }

  /** With the day key as `today`, a second submission the same day is refused as already marked. */
  lemma CorrectedMarksOnce(db: Db, s: Submission, t1: Instant, t2: Instant)
    requires ValidInstant(t1) && ValidInstant(t2) && SameDay(t1, t2)
    requires Offered(db.settings, s.selected)
    requires Submit(db, s.(today := DayKey(t1)), None).outcome == Accepted
    ensures var db1 := Submit(db, s.(today := DayKey(t1)), None).db;
            Submit(db1, s.(today := DayKey(t2)), None) == Step(AlreadyMarked, db1)
  {
    DayKeyNamesDay(t1, t2);
    ResubmitAlreadyMarked(db, s.(today := DayKey(t1)), s.(today := DayKey(t2)));
  }

  /** The stamp without its dashes still ends in the seconds. */
  lemma StampKeepsSeconds(t: Instant)
    ensures var w := Without(Stamp(t), '-');
            |w| >= 2 && w[|w| - 2..] == Padded(t.second, 2)
  {
    var stamp := Stamp(t);
    var sec := Padded(t.second, 2);
    assert stamp == stamp[..17] + sec;
    WithoutConcat(stamp[..17], sec, '-');
    WithoutAbsent(sec, '-');
  }

  /** With the full stamp in the path, a push a second later the same day creates a second file. */
  lemma AsWrittenPushCreates(files: map<string, ArchiveFile>, className: string, t1: Instant, t2: Instant, first: string, second: string)
    requires ValidInstant(t1) && ValidInstant(t2) && SameDay(t1, t2) && t1.second != t2.second
    requires ArchivePath(className, Stamp(t2)) !in files
    ensures var p1, p2 := ArchivePath(className, Stamp(t1)), ArchivePath(className, Stamp(t2));
            var f1 := Publish(files, true, p1, first, None).files;
            var r := Publish(f1, true, p2, second, None);
            p1 != p2 && r.outcome == Created(p2) && p1 in r.files && p2 in r.files
  {
    var p1, p2 := ArchivePath(className, Stamp(t1)), ArchivePath(className, Stamp(t2));
    StampKeepsSeconds(t1);
    StampKeepsSeconds(t2);
    PaddedInjective(t1.second, t2.second, 2);
    PathDatePart(className, Stamp(t1), Stamp(t2));
    var f1 := Publish(files, true, p1, first, None).files;
    assert p1 in f1 && p2 !in f1;
    CreatesMissing(f1, p2, second);
  }

  /** With the day key in the path, a later push the same day updates the day's file. */
  lemma CorrectedPushUpdates(files: map<string, ArchiveFile>, className: string, t1: Instant, t2: Instant, first: string, second: string, fault: Option<HostFault>)
    requires ValidInstant(t1) && ValidInstant(t2) && SameDay(t1, t2)
    requires var r := Publish(files, true, ArchivePath(className, DayKey(t1)), first, fault);
             r.outcome.Updated? || r.outcome.Created?
    ensures var f1 := Publish(files, true, ArchivePath(className, DayKey(t1)), first, fault).files;
            Publish(f1, true, ArchivePath(className, DayKey(t2)), second, None).outcome.Updated?
  {
    DayKeyNamesDay(t1, t2);
    RepublishUpdates(files, ArchivePath(className, DayKey(t1)), first, second, fault);
  }
}

/**
 * The roll-number check. `str.isdigit()` is true for digit characters that
 * `int()` cannot read, such as superscripts, so for them the check passes the
 * text on to `int()`, which raises an error nothing catches.
 */
module RollDigits {
  import opened Strings
  import opened Admission

  /** The characters `str.isdigit()` accepts, as far as the model goes: ASCII digits and the superscript digits. */
  predicate PyDigitChar(c: char) {
    IsDigit(c) || c == '\U{00B2}' || c == '\U{00B3}' || c == '\U{00B9}' || c == '\U{2070}' || ('\U{2074}' <= c <= '\U{2079}')
  }

  /** `s.isdigit()` as far as the model goes: every character an ASCII or superscript digit. */
  predicate PyIsDigits(s: string) {
    |s| > 0 && forall i :: 0 <= i < |s| ==> PyDigitChar(s[i])
  }

  /** The roll field read as written: either a roll entry, or the `ValueError` from `int()`. */
  datatype RollRead = Read(entry: RollEntry) | Crash

  function ReadRollAsWritten(text: string): (r: RollRead)
    ensures r == Crash <==> PyIsDigits(Strip(text)) && !IsDigits(Strip(text))
    ensures r.Read? ==> r.entry == ParseRoll(text)
  {
    var raw := Strip(text);
    if raw == [] then Read(Blank)
    else if !PyIsDigits(raw) then Read(NotNumber)
    else if !IsDigits(raw) then Crash
    else Read(Roll(DigitsValue(raw)))
  }

  /** A superscript two passes the check and then makes `int()` raise. */
  lemma SuperscriptCrashes()
    ensures ReadRollAsWritten("\U{00B2}") == Crash
  {
    assert PyIsDigits("\U{00B2}") && !IsDigit("\U{00B2}"[0]);
  }

  /** The corrected reading refuses that text as not a number. */
  lemma CorrectedRefuses()
    ensures ParseRoll("\U{00B2}") == NotNumber
  {
    assert !IsDigit("\U{00B2}"[0]);
  }
}
