# Attendance register — a Dafny model

The register is a small web application with three parts:

- A **student portal**. A student picks one of the open classes and types a roll number, a name and the class's attendance code. A submission is recorded once per roll and day key, up to a daily limit per class. The first name used for a roll number is locked to that roll from then on.
- An **administrator panel**. It creates and deletes classes, opens and closes attendance (at most one class open at a time) and changes a class's code and daily limit. It shows the class's attendance matrix and pushes it as a CSV file to a Git hosting repository.
- Two **read-only views**: an analytics page with present counts and totals per class, and a page where a student looks up their own record.

All parts share a record store with three tables, modelled in `Records.Db`:

- `classroom_settings` (`Records.ClassConfig`);
- `roll_map` (`Records.RollLock`);
- `attendance` (`Records.AttendanceEvent`).

The store-wide invariant `Records.Valid` says:

- class names are unique;
- at most one class is open;
- every daily limit is positive;
- each (class, roll) pair has at most one lock;
- each (class, roll, day) triple has at most one event;
- every event carries its roll's locked name;
- locks and events belong to classes that exist.

Each panel action is a function from the store to a `Step`, which pairs the message the action ends on with the store it leaves. Every store call that can raise in the submission flow and the class actions is named by `Records.StoreCall`. The read-only views have their own failure parameters: `fetchFails` for the admin matrix, `Analytics.PanelCall` for the analytics page and `queryFails` for the record lookup. A run is given the one call, if any, that raises (`fault`). That call writes nothing, and the run stops in its `except` branch.

`Registers.Store` is a class holding the three tables as fields. Its methods run the same actions in place and are proved equal to the functions.

The matrix views all build on `Matrix.Pivot`, the pandas `pivot_table` over "P" cells with fill value "A". The Git host is a map from path to file in `Archive`, and `Archive.Repository.Push` updates that map in place. The clock is a parameter. `Clock` models the text `current_date()` renders for a given instant.

Modules:

| module | what it models |
|---|---|
| `Strings` | `strip()`, `isdigit()`, `int()` on digits, `replace(c, '')`, and Python's string `<` |
| `Ordering` | sorting and deduplication, as used by the pivot's labels and `sort_values` |
| `Records` | the tables, the equality-filtered queries, the invariant |
| `Admission`, `AdmissionProperties` | the student submission flow and its properties |
| `ClassAdmin`, `ClassAdminProperties` | the class lifecycle and the controls of the selected class |
| `Registers` | the store as a mutable object |
| `Matrix` | the shared pivot |
| `AdminMatrix` | the admin matrix: `to_numeric`, `dropna`, `astype(int)`, `sort_values` |
| `Analytics` | the analytics page |
| `RecordView` | the student record lookup |
| `Clock` | the timestamp text |
| `Archive` | the push of the matrix to the Git host |
| `DayBoundary`, `RollDigits` | the two discrepancies listed under Findings |

The day key is meant to name a calendar day: the message "Attendance already marked today." at ATTENDANCE/student.py:119 says so, and so does the `"%Y-%m-%d"` fallback at ATTENDANCE/utils.py:26. But the code uses the full `"%Y-%m-%d %H:%M:%S"` timestamp (ATTENDANCE/utils.py:21). The model follows the code, and the consequences are the first two findings below.

## Model

| member | source | states |
|---|---|---|
| Strings.Strip | ATTENDANCE/student.py:59 | the stripped text is no longer than the input, has no whitespace at either end, and is empty exactly when the input is all whitespace |
| Strings.StripSlice | ATTENDANCE/student.py:59 | the stripped text is a slice of the input with only whitespace before it and after it |
| Strings.StripIdempotent | ATTENDANCE/student.py:59 | a general property of `strip()`: stripping an already stripped text changes nothing |
| Strings.ShowNatRoundTrip | ATTENDANCE/student.py:70 | `int(str(n)) == n`, and `str(n)` passes `isdigit()` |
| Strings.LeadingZero | ATTENDANCE/student.py:66-70 | a leading zero does not change the roll number a digit string reads as |
| Strings.Without | ATTENDANCE/admin.py:185 | `replace('-', '')` leaves no '-'; every other character is kept, and only those |
| Strings.WithoutConcat | ATTENDANCE/admin.py:185 | removing '-' from a concatenation removes it from each part |
| Strings.StrLtTransitive | ATTENDANCE/admin.py:164 | the string order used for pivot labels is transitive |
| Strings.StrLtTotal | ATTENDANCE/admin.py:164 | any two different strings are ordered one way or the other |
| Ordering.SortedUnique | ATTENDANCE/admin.py:164 | the result is strictly ascending and holds exactly the input's elements |
| Ordering.SortByKey | ATTENDANCE/admin.py:168 | the result is sorted by the key and is a permutation of the input |
| Ordering.DistinctPermutation | ATTENDANCE/admin.py:168 | a permutation of a duplicate-free sequence is duplicate-free |
| Records.FindClass | ATTENDANCE/student.py:44-51 | a hit is a row of that name; a miss happens exactly when no row has the name |
| Records.OpenClasses | ATTENDANCE/student.py:21-32 | the names listed are exactly the names of open rows |
| Records.OtherOpen | ATTENDANCE/admin.py:110 | the names listed are exactly the open classes other than the selected one |
| Records.LockOf | ATTENDANCE/student.py:73-90 | a hit is a lock row of that class and roll; a miss happens exactly when there is no such row |
| Records.Marked | ATTENDANCE/student.py:104-111 | an existing event for the (class, roll, day key) triple is one the day's count includes |
| Records.DayCount | ATTENDANCE/student.py:123-131 | the count is zero exactly when the class has no event on that day |
| Records.DayCountIsSize | ATTENDANCE/student.py:123-131 | the count is the exact number of rows of that class and day key, as `count="exact"` returns |
| Records.ClassEvents | ATTENDANCE/admin.py:152-155 | the rows returned are exactly the class's events |
| Records.LockIsUnique | ATTENDANCE/student.py:87-88 | when locks are unique, the first lock found for a roll is its only one |
| Records.AtMostOneOpen | ATTENDANCE/admin.py:116-118 | in a valid store, two open rows name the same class |
| Records.AddLockKeepsValid | ATTENDANCE/student.py:145-150 | a lock for a free (class, roll) pair of a known class keeps the store valid |
| Records.AddEventKeepsValid | ATTENDANCE/student.py:163-169 | an event under the locked name, for a triple not yet marked, keeps the store valid |
| Admission.ParseRoll | ATTENDANCE/student.py:59-70 | blank exactly when the field is all whitespace; not a number exactly when the stripped text is not all digits; otherwise the digits' value |
| Admission.ParseRollShown | ATTENDANCE/student.py:66-70 | a roll typed as `str(n)` is read back as `n` |
| Admission.Commit | ATTENDANCE/student.py:143-173 | a failed lock insert writes nothing; a failed event insert leaves only the lock bound; otherwise the lock is bound and the event added under the resolved name; the name-mismatch rejection (line 152) never happens, because the name is the locked one; a raising lock insert for an unlocked roll ends the run with nothing written |
| Admission.Record | ATTENDANCE/student.py:73-173 | acceptance happens exactly when the code matches, the roll is unmarked that day and the count is under the limit (with no call raising); every other ending but a failed event insert leaves the store as it was; a raising roll-map, duplicate or count query ends the run with nothing written, and a failed insert happens only when the event insert raises |
| Admission.Submit | ATTENDANCE/student.py:21-173 | an accepted submission was admissible and leaves the store `Admit` describes; with no call raising, an admissible submission is accepted; a rejection other than a failed event insert writes nothing; any raising query of the flow (open classes, settings, roll map, existing event, count) stops the run unaccepted with nothing written; a failed insert happens only when the event insert raises; the settings table never changes |
| AdmissionProperties.SubmitKeepsValid | ATTENDANCE/student.py:143-173 | every run of the submission flow, whichever call raises, keeps the store valid |
| AdmissionProperties.AdmitKeepsValid | ATTENDANCE/student.py:143-169 | an admitted submission keeps the store valid |
| AdmissionProperties.BindKeepsValid | ATTENDANCE/student.py:143-160 | binding the lock alone, as a failed event insert leaves it, keeps the store valid |
| AdmissionProperties.AdmitWithinLimit | ATTENDANCE/student.py:123-141 | an admitted submission raises the day's count by one, and the count stays within the daily limit |
| AdmissionProperties.LockedNameWins | ATTENDANCE/student.py:87-90 | with a lock in place the event carries the locked name and the lock table is untouched |
| AdmissionProperties.FirstSubmissionLocks | ATTENDANCE/student.py:91-92 | without a lock, the stripped typed name is locked, and the event carries it |
| AdmissionProperties.ResubmitAlreadyMarked | ATTENDANCE/student.py:103-121 | resubmitting the same class, roll, code and day key after acceptance ends as already marked, with nothing written |
| AdmissionProperties.RejectsWrongCode | ATTENDANCE/student.py:99-101 | a wrong code ends the run and writes nothing |
| AdmissionProperties.RejectsDuplicate | ATTENDANCE/student.py:118-121 | an existing event for the triple ends the run and writes nothing |
| AdmissionProperties.RejectsAtLimit | ATTENDANCE/student.py:138-141 | a count at the limit ends the run and writes nothing |
| AdmissionProperties.NothingOpen | ATTENDANCE/student.py:38-40 | with no class open the run stops before any other read |
| AdmissionProperties.RejectsBadRoll | ATTENDANCE/student.py:62-68 | a blank or non-numeric roll ends the run with the matching message, and writes nothing |
| ClassAdmin.CreateClass | ATTENDANCE/admin.py:49-62 | a class is created exactly when the name is not blank, no row has it and no call raises; the new row has code "1234", limit 10 and is closed |
| ClassAdmin.DropEvents | ATTENDANCE/admin.py:74 | the attendance rows left are exactly those of other classes |
| ClassAdmin.DropLocks | ATTENDANCE/admin.py:75 | the roll locks left are exactly those of other classes |
| ClassAdmin.DropClass | ATTENDANCE/admin.py:76 | the settings rows left are exactly those of other classes |
| ClassAdmin.DeleteClass | ATTENDANCE/admin.py:68-78 | deletion happens exactly when the target is not blank, "DELETE" is typed and no delete raises; the three tables then keep exactly the other classes' rows; a raising attendance delete writes nothing, a raising roll-map delete leaves only the attendance rows removed, and a raising settings delete leaves the attendance and roll-map rows removed and the settings table as it was |
| ClassAdmin.Stopped | ATTENDANCE/admin.py:85-104 | the controls go on exactly when the class list is fetched and holds the selected name |
| ClassAdmin.OpenClass | ATTENDANCE/admin.py:116-125 | opening happens exactly when no other class is open and the update does not raise; a refusal names the open classes; only the selected class's flag changes |
| ClassAdmin.CloseClass | ATTENDANCE/admin.py:127-133 | closing happens exactly when the controls go on and the update does not raise; it clears the selected class's flag |
| ClassAdmin.UpdateSettings | ATTENDANCE/admin.py:135-145 | saving happens exactly when the controls go on and the update does not raise; it sets the selected class's code and limit |
| ClassAdmin.SetOpen | ATTENDANCE/admin.py:121 | only the selected class's rows change, and only their open flag |
| ClassAdmin.SetSettings | ATTENDANCE/admin.py:140 | only the selected class's rows change, and only their code and limit |
| ClassAdminProperties.CreateKeepsValid | ATTENDANCE/admin.py:49-62 | creating a class keeps the store valid |
| ClassAdminProperties.DeleteKeepsValid | ATTENDANCE/admin.py:68-81 | a delete keeps the store valid, including one stopped part-way by a raising call |
| ClassAdminProperties.OpenKeepsValid | ATTENDANCE/admin.py:116-125 | opening keeps at most one class open, and the rest of the invariant |
| ClassAdminProperties.CloseKeepsValid | ATTENDANCE/admin.py:127-133 | closing keeps the store valid |
| ClassAdminProperties.UpdateKeepsValid | ATTENDANCE/admin.py:135-145 | saving a limit of at least one keeps the store valid |
| ClassAdminProperties.OpenedIsOnlyOpen | ATTENDANCE/admin.py:116-121 | after opening, the selected class is the only open class |
| ClassAdminProperties.DeletedLeavesNothing | ATTENDANCE/admin.py:74-76 | after a delete no settings row, lock or event of the class is left |
| Registers.Store.Submit | ATTENDANCE/student.py:21-173 | the tables afterwards, and the outcome, are those of `Admission.Submit`; validity is kept |
| Registers.Store.Record | ATTENDANCE/student.py:73-173 | the tables afterwards, and the outcome, are those of `Admission.Record` |
| Registers.Store.Commit | ATTENDANCE/student.py:143-173 | the tables afterwards, and the outcome, are those of `Admission.Commit` |
| Registers.Store.CreateClass | ATTENDANCE/admin.py:49-62 | the tables afterwards, and the outcome, are those of `ClassAdmin.CreateClass`; validity is kept |
| Registers.Store.DeleteClass | ATTENDANCE/admin.py:68-81 | the tables afterwards, and the outcome, are those of `ClassAdmin.DeleteClass`; validity is kept |
| Registers.Store.OpenClass | ATTENDANCE/admin.py:116-125 | the tables afterwards, and the outcome, are those of `ClassAdmin.OpenClass`; validity is kept |
| Registers.Store.CloseClass | ATTENDANCE/admin.py:127-133 | the tables afterwards, and the outcome, are those of `ClassAdmin.CloseClass`; validity is kept |
| Registers.Store.UpdateSettings | ATTENDANCE/admin.py:135-145 | the tables afterwards, and the outcome, are those of `ClassAdmin.UpdateSettings`; validity is kept |
| Matrix.Dates | ATTENDANCE/admin.py:164 | the date columns are strictly ascending, and are exactly the dates that occur |
| Matrix.Keys | ATTENDANCE/admin.py:164 | the row labels are strictly ascending, and are exactly the (roll, name) pairs that occur |
| Matrix.Cells | ATTENDANCE/admin.py:163-164 | one cell per date, "P" exactly when a row with that roll, name and date exists |
| Matrix.Pivot | ATTENDANCE/admin.py:162-164 | sorted unique columns and labels, exactly those that occur, a rectangular grid, and "P" in a cell exactly when a matching row exists |
| Matrix.EntryShown | ATTENDANCE/analytics.py:44-46 | every fetched row shows as a "P" in its own row and column |
| Matrix.PivotRowsDistinct | ATTENDANCE/analytics.py:46 | no (roll, name) pair gets two rows |
| Matrix.KeyLtStrictTotal | ATTENDANCE/attendance_panel.py:56-62 | the row-label order is a strict total order |
| AdminMatrix.ToNumeric | ATTENDANCE/admin.py:165 | numbers are kept; text becomes a number exactly when it reads as a whole number |
| AdminMatrix.Coerce | ATTENDANCE/admin.py:165-167 | a row is kept, with a numeric roll, exactly when its roll converts |
| AdminMatrix.CoerceAll | ATTENDANCE/admin.py:165-167 | when every roll is already a number, every row is kept, in order |
| AdminMatrix.Shown | ATTENDANCE/admin.py:165-168 | the rows shown are sorted by roll and are a permutation of the converted rows |
| AdminMatrix.AdminRows | ATTENDANCE/admin.py:161-168 | the admin matrix is sorted by roll and is a permutation of the pivot's converted rows |
| AdminMatrix.View | ATTENDANCE/admin.py:152-168 | a fetch failure shows nothing; "no data" exactly when the class has no events; a table has the pivot's date columns and the admin rows of exactly the class's events, sorted by roll |
| AdminMatrix.ShownKeeps | ATTENDANCE/admin.py:165-168 | every row whose roll converts is shown |
| AdminMatrix.ShownFrom | ATTENDANCE/admin.py:165-168 | every row shown comes from a row whose roll converts |
| AdminMatrix.AdminRowFrom | ATTENDANCE/admin.py:161-168 | every row shown stands for a fetched row with that name and roll |
| AdminMatrix.StoreRowsKept | ATTENDANCE/admin.py:165-166 | rolls read from the store are numbers, so `dropna` drops no pivot row |
| AdminMatrix.OneNamePerRoll | ATTENDANCE/student.py:143-155 | in a valid store, two events of a class with the same roll carry the same name |
| AdminMatrix.PivotRollsDistinct | ATTENDANCE/admin.py:164 | in a valid store, no two pivot rows share a roll |
| AdminMatrix.StrictlyAscending | ATTENDANCE/admin.py:168 | sorting rows with distinct rolls by roll yields strictly ascending rolls |
| AdminMatrix.AdminRollsAscending | ATTENDANCE/admin.py:161-168 | in a valid store, the admin matrix lists each roll once, strictly ascending |
| Analytics.ClassNames | ATTENDANCE/analytics.py:19-21 | the class list is the settings rows' names, in order |
| Analytics.Present | ATTENDANCE/analytics.py:52 | a row's present count is at most its number of cells |
| Analytics.PresentIsSize | ATTENDANCE/analytics.py:52 | a row's present count is the exact number of its "P" cells |
| Analytics.PresentPlusAbsent | ATTENDANCE/analytics.py:76-77 | present and absent cells add up to all cells |
| Analytics.PresentExtremes | ATTENDANCE/analytics.py:52 | the present count is zero exactly when no cell is "P", and full exactly when no cell is "A" |
| Analytics.PresentCounts | ATTENDANCE/analytics.py:51-52 | one count per row, each the number of "P" cells in that row |
| Analytics.PivotCountBounds | ATTENDANCE/analytics.py:46-52 | every pivot row has at least one and at most one-per-date present cells |
| Analytics.Flatten | ATTENDANCE/analytics.py:75 | a status occurs in the flattened grid exactly when it occurs in some row |
| Analytics.FlattenLength | ATTENDANCE/analytics.py:75 | flattening the grid gives rows × dates cells |
| Analytics.PresentFlatten | ATTENDANCE/analytics.py:74-76 | the pie's present total is the sum of the rows' present counts |
| Analytics.Totals | ATTENDANCE/analytics.py:74-77 | the pie's present total is the sum of the row counts, and present plus absent is rows × dates |
| Analytics.Largest | ATTENDANCE/analytics.py:56 | `nlargest`: min(n, rows) rows, non-increasing counts, taken from the input, and every row left out has a count no higher than any row kept |
| Analytics.Tallies | ATTENDANCE/analytics.py:52-56 | one (name, present count) pair per pivot row, in order |
| Analytics.TopAreRows | ATTENDANCE/analytics.py:56 | every bar of the top list is a pivot row's name with that row's present count |
| Analytics.Summarize | ATTENDANCE/analytics.py:44-77 | the grid is the pivot; counts per row; the top list is `nlargest(30)` of the rows' (name, present count) pairs, so it has min(30, rows) entries taken from the rows, in non-increasing order, with no row left out counting more than one kept; the pie totals add up to rows × dates |
| Analytics.Panel | ATTENDANCE/analytics.py:13-47 | each early message happens exactly when its condition holds; otherwise the report of the class's events is shown |
| RecordView.Castable | ATTENDANCE/attendance_panel.py:38-46 | text the store casts to the roll column has no surrounding whitespace |
| RecordView.CastableShown | ATTENDANCE/attendance_panel.py:38-46 | a roll typed as `str(n)`, within the column's 32-bit range, is cast to `n` |
| RecordView.RollEvents | ATTENDANCE/attendance_panel.py:38-46 | the rows returned are exactly the events of that class and roll |
| RecordView.Show | ATTENDANCE/attendance_panel.py:28-65 | asks for the roll exactly when it is blank; reports no client exactly when the roll is not blank and there is none; a failed or empty query shows "no records"; a table is the pivot of exactly that roll's events |
| RecordView.RowsHaveRoll | ATTENDANCE/attendance_panel.py:65 | every row of the lookup has the roll asked for, so sorting by roll changes nothing |
| RecordView.MarkedDayShown | ATTENDANCE/attendance_panel.py:53-62 | every day the roll is marked on shows as a column |
| RecordView.ShownDayMarked | ATTENDANCE/attendance_panel.py:53-62 | every column is a day the roll is marked on |
| RecordView.DatesAreMarkedDays | ATTENDANCE/attendance_panel.py:53-62 | a day is a column exactly when the roll is marked on it |
| RecordView.OneName | ATTENDANCE/attendance_panel.py:38-46 | in a valid store, all events of one class and roll carry one name |
| RecordView.AtMostOneRow | ATTENDANCE/attendance_panel.py:56-62 | in a valid store, the lookup has at most one row |
| Clock.Padded | ATTENDANCE/utils.py:21 | a zero-padded field has its width, only digits, and reads back as its value when that fits |
| Clock.PaddedInjective | ATTENDANCE/utils.py:21 | two values that fit the width pad to the same text exactly when they are equal |
| Clock.DayKey | ATTENDANCE/utils.py:26 | `"%Y-%m-%d"` is 10 characters, with year, month and day in their places |
| Clock.TimeOfDay | ATTENDANCE/utils.py:21 | `"%H:%M:%S"` is 8 characters, with hour, minute and second in their places |
| Clock.Stamp | ATTENDANCE/utils.py:21 | `"%Y-%m-%d %H:%M:%S"` is 19 characters: the day key, then hour, minute and second in their places |
| Clock.DayKeyNamesDay | ATTENDANCE/utils.py:26 | two instants share a date key exactly when they fall on the same day |
| Clock.StampNamesSecond | ATTENDANCE/utils.py:21 | two instants share a timestamp exactly when they are the same second |
| Archive.ArchivePath | ATTENDANCE/admin.py:185 | the file name is the prefix, the class, "_", the date text without '-', then ".csv" |
| Archive.PathDatePart | ATTENDANCE/admin.py:185 | for one class, two date texts give the same file exactly when they agree once '-' is removed |
| Archive.Raised | ATTENDANCE/admin.py:190-218 | a host call raises exactly when it is the fault's call |
| Archive.OnStatus | ATTENDANCE/admin.py:200-215 | a 404 creates the file unless creating raises or the file exists; any other status is a host error and writes nothing |
| Archive.Publish | ATTENDANCE/admin.py:180-218 | unconfigured exactly when there is no repository; an update replaces the content of an existing file; a create adds a missing one; every other ending writes nothing; no other path changes |
| Archive.UpdatesExisting | ATTENDANCE/admin.py:190-199 | with nothing raising, pushing to an existing path replaces its content under the next revision and leaves other paths alone |
| Archive.CreatesMissing | ATTENDANCE/admin.py:200-209 | with nothing raising, pushing to a missing path creates it |
| Archive.RepublishUpdates | ATTENDANCE/admin.py:190-199 | after a push has written a file, pushing to the same path again updates it |
| Archive.RefusedUpdateWritesNothing | ATTENDANCE/admin.py:210-212 | a refused request other than 404 reports the host error and writes nothing |
| Archive.VanishedUpdateFails | ATTENDANCE/admin.py:200-215 | a 404 on an existing path fails the create and writes nothing |
| Archive.Repository.Push | ATTENDANCE/admin.py:180-218 | the repository's files afterwards, and the outcome, are those of `Archive.Publish` |
| DayBoundary.AsWrittenMarksTwice | ATTENDANCE/student.py:97-121 | under the timestamp day key, a second submission later the same day is accepted as well, and the roll is marked under two keys that share a date |
| DayBoundary.CorrectedMarksOnce | ATTENDANCE/student.py:103-121 | under a date-only day key, a second submission the same day ends as already marked |
| DayBoundary.StampKeepsSeconds | ATTENDANCE/admin.py:185 | removing '-' from the timestamp keeps the hour, minute and second |
| DayBoundary.AsWrittenPushCreates | ATTENDANCE/admin.py:185-209 | two pushes the same day, seconds apart, write two different files |
| DayBoundary.CorrectedPushUpdates | ATTENDANCE/admin.py:185-199 | with a date-only key, the second push of the day updates the first file |
| RollDigits.ReadRollAsWritten | ATTENDANCE/student.py:66-70 | the as-written read crashes exactly when the stripped text passes the modelled `isdigit()` (ASCII and superscript digits) but is not ASCII digits; otherwise it agrees with `Admission.ParseRoll` |
| RollDigits.SuperscriptCrashes | ATTENDANCE/student.py:66-70 | the roll "²" passes the digit check and then crashes the conversion |
| RollDigits.CorrectedRefuses | ATTENDANCE/student.py:66-68 | the corrected reading refuses "²" as not a number |

## Left out

- User interface: page layout, buttons, messages, `st.rerun`, `st.stop`, session state and the admin login form. Each outcome value stands for the message a run ends on.
- Streamlit forms and widget state across reruns. The selected class and other inputs are parameters.
- The record store and Git host clients. They are replaced by in-memory tables and a map, with a `fault` parameter naming the call that raises. There is no network, latency or partial write.
- Concurrency. Two submissions racing between the duplicate check and the insert are not modelled, and each action runs alone.
- The logger: logging has no effect on any outcome.
- The clock. `today` is a parameter of the submission, and `Clock` only renders a given instant. Time zones and the `pytz` failure fallback are not modelled.
- The CSV text and its encoding. `Archive` keeps the file content as an opaque string and the file's sha as a revision number.
- The commit message and branch name of the push.
- Analytics floating point: the attendance percentage and its rounding, the top-3 and bottom-3 tables sorted by it, the range slider and filter, and the drawing of the bar and pie charts. The pie's totals are modelled.
- Analytics.Largest: ties in `nlargest` are not broken the way pandas breaks them. The contract fixes the counts kept, not which of several tied rows is kept.
- AdminMatrix.Shown: `sort_values` is not a stable sort in pandas. The model sorts stably, so its order among equal rolls is one of those pandas may produce.
- Matrix.Pivot: pandas' order for a mixed number/text label column is not modelled. The model puts numbers before text, orders numbers by value and orders text by code point.
- AdminMatrix.ToNumeric: `to_numeric` also reads decimals, exponents and padded text, and the model reads only an optional sign and ASCII digits. Missing rolls are not modelled: the model assumes the store's roll column is an integer that is never null.
- Strings.IsSpace: only the ten ASCII characters `str.strip()` removes are modelled (space, tab, line feed, vertical tab, form feed, carriage return, U+001C to U+001F). The non-ASCII characters it also removes, such as U+0085, U+00A0 and U+3000, are kept by the model's `Strip`.
- Admission.ParseRoll: Unicode decimal digits other than ASCII, which both `isdigit()` and `int()` accept, are read as not a number. The superscript case, where the two disagree, is a finding.
- RecordView.Castable: the SQL cast of the roll text is modelled as an optional sign, ASCII digits and the 32-bit range. Surrounding blanks and other notations the database may accept are not modelled.
- RecordView.Show: a query that raises for a roll that cannot be cast, and one that fails for any other reason, both end as "no records", as the code does. An empty class list, where the selectbox yields `None`, is treated like any class with no events.
- Admission.Submit: rolls beyond the 32-bit range that `RecordView.Castable` assumes for the `roll_number` column are accepted and stored. Under that column type the roll-map query would raise instead and the run would end with the roll-map failure message.
- Records.AttendanceEvent: the model assumes the store compares `attendance.date` as the text inserted. No schema is part of this model. If the column were a calendar `date`, the store would cut the timestamp to its day on insert and in the `eq` filters, and the duplicate and limit checks would already be per day.
- RollDigits.ReadRollAsWritten: the modelled `isdigit()` accepts only ASCII and superscript digits. Other characters with the Unicode digit property, such as circled digits (U+2460 to U+2468) and parenthesised digits (U+2474 to U+247C), also pass `isdigit()` and then make `int()` raise in the program; the model reads them as not a number. Non-ASCII decimal digits such as U+0663, which `int()` does read, are covered by the Admission.ParseRoll line above.
- The entry scripts `admin_main.py` and `student_main.py`, which only call the panels.
- Configuration and secrets loading (`config.py`, `clients.py`).

## Findings

| source | as written | input that shows it | evidently intended | confidence | as-written member | corrected member |
|---|---|---|---|---|---|---|
| ATTENDANCE/student.py:97 | the day key is `current_date()`, which renders date and time to the second (ATTENDANCE/utils.py:21), so the duplicate check and the daily count compare whole timestamps, provided `attendance.date` is stored and compared as text or a timestamp rather than a calendar date | one roll submitted at 09:00:00 and again at 09:00:01 on the same day: both are accepted (with a text or timestamp `date` column) | one submission per roll per calendar day, counted per day | not executed | DayBoundary.AsWrittenMarksTwice | DayBoundary.CorrectedMarksOnce |
| ATTENDANCE/admin.py:185 | the archive file name embeds the timestamp with '-' removed, so it keeps the time of day | two pushes of one class at 09:00:00 and 09:00:01 on one day create two files | one archive file per class per day, updated on later pushes | not executed | DayBoundary.AsWrittenPushCreates | DayBoundary.CorrectedPushUpdates |
| ATTENDANCE/student.py:66-70 | `isdigit()` accepts superscript digits, which `int()` then rejects with an error that nothing catches | roll number "²" | the roll is refused as not a number | not executed | RollDigits.ReadRollAsWritten | Admission.ParseRoll |
