# Gym management record store, modelled in Dafny

The gym management program keeps all of its data in one comma-separated
file. Every record is a row whose column 0 names its table (Member,
Attendance, Gym_Location, Workout_Zone, Payment, Appointment, Staff) and
whose other columns hold that table's fields in schema order. The file
starts with a header row, `Table` followed by ten times `Field`. The forms
and buttons of the program run small scans and rewrites over this file:

- the key choices offered for an `_ID` field;
- the uniqueness check;
- adding a record;
- the update rewrite;
- the cascading member delete;
- the per-id member cache;
- the de-duplicated attendance view;
- the member summary sheet;
- the member search;
- the rows picked for the join-date chart.

The model keeps the file as a sequence of rows (`seq<seq<string>>`) in the
field `rows` of class `Store.GymStore`. The module-level member cache is
the field `memberData`. Every loop of the modelled operations (the option
lookup, the cache refresh, the uniqueness check, the member check of an
add, the update and delete rewrites, the attendance view, the summary
sheet, the search and the chart's row selection) is a method with loop
invariants. Each method is proved equal to a function over the rows, and
the properties the program relies on are proved about those functions as
lemmas.

Modules:

- `Wrappers`: `Option`.
- `Text`: Python's `startswith`, `endswith`, `s[:-1]` and `s.split()[0]`, with the whitespace set of `str.isspace`.
- `Schema`: the tables and their fields, the date fields, the header row, and the resolution of an `_ID` field to the table it draws its choices from.
- `Records`: the row-level functions (options, grouping, rewrite, delete, summary sheet, chart rows) and their lemmas.
- `Uniqueness`: the uniqueness check and the proof that it reports the first conflict.
- `Attendance`: the attendance de-duplication and a reference definition it is proved against.
- `Store`: the class holding the file and the cache, with one method per operation.

Where the code and the design description of the program differ, the model
follows the code:

- `add_record` never calls the uniqueness check, so a duplicate id is written without complaint. `Store.GymStore.Add` does not call it either. The check is modelled on its own (`Store.GymStore.ValidateUniqueEntries`).
- The delete, the member cache and the attendance view all key on column 1. Column 1 is the first schema field of each table (`Attendance_ID`, `Payment_ID`, ...), and is the member id only for Member rows. So deleting member `M1` removes an Attendance row only when its Attendance_ID is `M1`, and keeps every Attendance row whose Member_ID is `M1` unless its Attendance_ID is also `M1`.
- The attendance view calls its de-duplication key `date`, but it reads `row[3]`, which is Class_ID (an Attendance row is tag, Attendance_ID, Member_ID, Class_ID, Date_Time, Attendance). So it keeps the first record for each distinct first token of Class_ID, and two visits to the same class at different times show once (`Attendance.SameClassShownOnce`). The name shows that Date_Time, `row[4]`, was meant. The model follows the code. Date_Time itself is overwritten with the time of day (`HH:MM:SS`) when an Attendance record is added.
- A Class_ID made only of blanks passes the add's empty-field check, which compares with `""`. Once it is on file, the view raises at `split()[0]` for the id in column 1 of such a row (`Attendance.BlankClassIdFailsView`).
- The uniqueness check treats `Member_ID` as unique in every table that has it. So Attendance, Payment and Appointment rows sharing a member id would count as duplicates.
- Workout_Zone and Staff have no unique field, so their check never refuses (`Uniqueness.NoUniqueFieldNoRefusal`).
- The summary sheet, the search and the chart skip the first row as a header. After `delete_member("Field")` removes the header, the first remaining row is skipped instead, and that can be a member (`Records.MemberSheetDropsFirstMember`).

## Model

| member | source | states |
|---|---|---|
| Schema.Fields | Gym_Management_system.py:9-21 | exactly the seven table names have fields, each table between 4 and 10 of them |
| Schema.HeaderShape | Gym_Management_system.py:53-56 | the header row has 11 cells: `Table`, then `Field` ten times; its tag is no table name |
| Schema.CandidatesMembership | Gym_Management_system.py:243 | the candidates are exactly the tables whose name, last character dropped, begins the field |
| Schema.CandidatesFirst | Gym_Management_system.py:243-245 | the first candidate is the first such table in schema order |
| Schema.CandidatesNone | Gym_Management_system.py:243-244 | when no table prefix begins the field there are no candidates, so no choice list is built |
| Schema.ForeignTable | Gym_Management_system.py:242-245 | a field has a foreign table exactly when it ends with `_ID`, is not the table's first field and some table prefix matches it; the table chosen is the first match in schema order |
| Schema.ForeignTablesOfSchema | Gym_Management_system.py:242-245 | over the current schema only a `Member_ID` outside the Member table resolves, and it resolves to Member |
| Schema.WidgetsOfSchema | Gym_Management_system.py:242-263 | over the current schema: Member choices for a non-first Member_ID, a picker for each of the five date fields, free text otherwise |
| Text.DropLast | Gym_Management_system.py:243 | `s[:-1]`: the string without its last character, empty for empty |
| Text.FirstToken | Gym_Management_system.py:330 | `split()[0]`: none exactly for a blank string; otherwise a non-empty run without whitespace that follows the leading whitespace and ends at whitespace or the end |
| Uniqueness.UniqueFields | Gym_Management_system.py:123-125 | appending Appointment_ID for Appointment leaves the set of unique fields unchanged |
| Uniqueness.FieldScanFirst | Gym_Management_system.py:132-134 | over any field list, the inner loop on a full row never raises, finds nothing exactly when no unique field repeats, and otherwise names the first one that does |
| Uniqueness.FieldVerdictFirst | Gym_Management_system.py:132-134 | on a full row, the inner loop never raises, finds nothing exactly when no field conflicts, and otherwise names the first conflicting field |
| Uniqueness.RowsVerdictFirst | Gym_Management_system.py:130-134 | on full rows, the scan finds nothing exactly when no row conflicts, and otherwise names the field of the first conflict in file order, then schema order |
| Uniqueness.ValidateAcceptsIffNoConflict | Gym_Management_system.py:110-137 | the check returns `(True, "")` exactly when no row of the table repeats a unique value of the candidate |
| Uniqueness.ValidateReportsFirstConflict | Gym_Management_system.py:130-134 | a refusal `(False, f)` names the field `f` of the first conflict |
| Uniqueness.OtherTablesIgnored | Gym_Management_system.py:131 | inserting a row of another table anywhere never changes the verdict |
| Uniqueness.NoUniqueFieldNoRefusal | Gym_Management_system.py:123-134 | the check never refuses a Workout_Zone or Staff record |
| Uniqueness.RefusedAfterAppend | Gym_Management_system.py:130-134 | once `[t] + d` is on file, a candidate sharing any unique-field value with `d` is refused |
| Uniqueness.SecondMemberWithSameId | Gym_Management_system.py:130-134 | a second Member with an id already on file is refused with `Member_ID` |
| Uniqueness.ShortRowEndsCheck | Gym_Management_system.py:133-137 | a Member row holding only an id raises at its missing Email; the swallowed error accepts the record, whatever later rows hold |
| Store.GymStore.ValidateUniqueEntries | Gym_Management_system.py:110-137 | the nested loops with early returns compute the check's verdict pair |
| Records.OptionsAreKeys | Gym_Management_system.py:64-73 | the options are the id cells of the table's data rows, one per row tagged with the key table, in order |
| Records.OptionsCount | Gym_Management_system.py:64-73 | there are as many options as rows tagged with the key table, duplicates kept |
| Records.OptionsMembership | Gym_Management_system.py:68-70 | a value is offered exactly when some row of the key table has it in column 1 |
| Records.OptionsAppend | Gym_Management_system.py:68-70 | the options of two stretches of file are the options of each, in file order |
| Records.OptionsAfterAppend | Gym_Management_system.py:200-202 | an appended row of the key table adds its id last, after every earlier option |
| Records.OptionsAfterTwoMembers | Gym_Management_system.py:64-73 | after adding two members to a fresh file the Member options are their two ids in insertion order |
| Store.GymStore.GetForeignKeyOptions | Gym_Management_system.py:59-73 | the loop collects the options; the `table_name` argument does not affect them |
| Store.GymStore.HasMember | Gym_Management_system.py:187-193 | true exactly when some Member row has the id in column 1 |
| Records.Grouped | Gym_Management_system.py:102 | the cache has exactly one list per schema table |
| Records.SelectedMembership | Gym_Management_system.py:106-108 | an entry is in table T's list exactly when some row tagged T with the id in column 1 has it as its cells after the tag |
| Records.SelectedAppend | Gym_Management_system.py:106-108 | the lists keep file order: the lists of two stretches of file are concatenated |
| Records.GroupedSnoc | Gym_Management_system.py:106-108 | one more row extends the list of its own table only, and only when it carries the id |
| Records.GroupedSkipsUntagged | Gym_Management_system.py:107 | a row whose tag is no table name, such as the header, never changes the cache |
| Store.GymStore.Populate | Gym_Management_system.py:91-108 | the cache is rebuilt as the grouping of the file's rows for the id |
| Records.SelectedIsKeyedTableData | Gym_Management_system.py:446-452 | the cache's list for a table is that table's data rows filtered on their first cell |
| Store.Stamped | Gym_Management_system.py:197 | an Attendance record has Date_Time (index 3) replaced by the time; every other cell is kept |
| Store.GymStore.Add | Gym_Management_system.py:169-203 | an empty field refuses, and so does an Attendance record for a member not on file; both leave file and cache as they were; otherwise the stamped record is appended and the cache rebuilt for its first field |
| Records.Rewritten | Gym_Management_system.py:220-227 | the rewritten file has as many rows as before |
| Records.RewrittenIdempotent | Gym_Management_system.py:220-230 | rewriting twice with the same values gives the file rewriting once gives |
| Records.RewrittenKeepsTags | Gym_Management_system.py:224-227 | every row keeps its table tag and its place |
| Records.RewrittenOtherTables | Gym_Management_system.py:224-227 | the data and the options of every other table are unchanged |
| Records.RewrittenUnchanged | Gym_Management_system.py:224-227 | when every matching row already holds the new values, the file is unchanged |
| Store.GymStore.Update | Gym_Management_system.py:214-231 | an empty field writes nothing; otherwise each matching row is replaced in place by `[t] + updated` and the cache rebuilt for the id |
| Records.Survivors | Gym_Management_system.py:296-298 | the kept rows are well formed and no more than before |
| Records.SurvivorsMembership | Gym_Management_system.py:297 | a row is kept exactly when column 1 differs from the id or it is an Appointment row |
| Records.SurvivorsAppend | Gym_Management_system.py:296-298 | the kept rows keep file order |
| Records.SurvivorsIdempotent | Gym_Management_system.py:293-301 | deleting twice gives the same file as deleting once |
| Records.NoRowLeftForId | Gym_Management_system.py:297 | afterwards no row but an Appointment row has the id in column 1 |
| Records.AppointmentsSurvive | Gym_Management_system.py:297 | every Appointment row is kept |
| Records.HeaderSurvives | Gym_Management_system.py:297 | the header stays first unless the id is `Field`, which removes it |
| Records.GroupedAfterDelete | Gym_Management_system.py:297-304 | after deleting an id, the grouping for that id is empty in every table but Appointment |
| Store.GymStore.DeleteMember | Gym_Management_system.py:281-304 | an empty id changes nothing; otherwise the file becomes the kept rows in order and the cache is rebuilt for `dummy_id` |
| Attendance.ScanMeaning | Gym_Management_system.py:325-333 | the loop fails exactly when a matching row has no key (the first token of Class_ID); otherwise it keeps the first record of each key in file order, and its date set is the set of all keys seen |
| Attendance.FirstOfEachKeyFrom | Gym_Management_system.py:331-333 | every kept record is a matching record that no earlier record shares its key with |
| Attendance.FirstOfEachKeyDistinct | Gym_Management_system.py:327-333 | no two kept records share a key |
| Attendance.FirstOfEachKeyCovers | Gym_Management_system.py:327-333 | every key among the matching records is the key of some kept record |
| Attendance.ScanFailureStays | Gym_Management_system.py:330 | once reading a key raises, the view fails whatever follows |
| Attendance.ViewMeaning | Gym_Management_system.py:325-337 | the view fails exactly when a matching row has no key, shows the notice exactly when no row matches, and otherwise shows distinct-key first occurrences, each from an Attendance row with the id in column 1 |
| Attendance.SameClassShownOnce | Gym_Management_system.py:329-333 | two rows for one id with the same Class_ID and different Date_Time give only the first record |
| Attendance.BlankClassIdFailsView | Gym_Management_system.py:329-330 | a matching row whose Class_ID is blank makes the view fail |
| Store.GymStore.ShowAttendance | Gym_Management_system.py:311-337 | the loop with its set of seen keys (`attendance_dates`) computes the view |
| Records.TableDataCount | Gym_Management_system.py:370-372 | a table's data list has one entry per row tagged with it |
| Records.TableDataMembership | Gym_Management_system.py:370-372 | an entry is in a table's data list exactly when a row of that table has it as its cells after the tag |
| Records.TableDataAppend | Gym_Management_system.py:370-372 | the data lists keep file order |
| Records.Truncate | Gym_Management_system.py:377 | `e[:10]`: the first ten cells, or all of them when there are fewer |
| Records.MemberSheetContents | Gym_Management_system.py:367-379 | as many summary lines as Member rows after the first row; each line is the first ten cells of such a row's data, and every such row has its line |
| Records.MemberSheetSnoc | Gym_Management_system.py:370-377 | a row appended to a non-empty file adds its line last when it is a Member row and leaves the sheet as it was otherwise, so lines follow file order one per row |
| Records.MemberSheetTwoMembers | Gym_Management_system.py:367-379 | two members added to a fresh file give the sheet of their two rows, in the order added |
| Records.MemberSheetAfterHeader | Gym_Management_system.py:369-372 | with the header first, the summary lists every Member row |
| Records.MemberSheetDropsFirstMember | Gym_Management_system.py:369-372 | with a Member row first, the summary leaves that member out |
| Store.GymStore.MemberRows | Gym_Management_system.py:369-372 | the read loop collects the data of every Member row after the first row, in file order |
| Store.GymStore.FinalSheet | Gym_Management_system.py:358-379 | an empty file fails; otherwise the two loops compute the summary sheet |
| Store.GymStore.ChartRowsFor | Gym_Management_system.py:442-457 | the read loop and the filter compute the chart's row selection: an empty file fails, no id gives every Member row after the first, an id with no match gives the notice |
| Store.GymStore.SearchMember | Gym_Management_system.py:400-427 | an empty term warns; an empty file fails; otherwise a Member row after the first row with the term in column 1 is found exactly when one exists, and only then is the cache rebuilt for the term |
| Records.ChartSelectionForId | Gym_Management_system.py:442-457 | with an id the chart takes exactly the Member rows of that id after the first row, and refuses when there are none |
| Store.GymStore.constructor | Gym_Management_system.py:48-56 | a missing file starts as the header row alone; an existing file is taken as it is; the cache starts empty |

## Left out

- The tkinter user interface is out: windows, frames, grid and pack layout, Treeview filling, the form pre-fill from the cache (lines 148-167, 241, 246-250, 253-257, 259-280, 339-355, 383-396, 429-432, `main_ui`) and all of `main.py`. Dialog boxes are the outcome values of the methods.
- Clock readings are out: `datetime.now()` at lines 86 and 197. The time an Attendance record is stamped with is the parameter `now` of `Add`. The date picker's default date is not modelled.
- File and CSV handling are out: `open`, `csv.reader`/`csv.writer`, quoting, and the non-atomic overwrite. The file is the in-memory sequence `rows`, and its existence at start-up is the constructor's parameter.
- Store.GymStore.Valid: every row is assumed to have at least a tag and a column 1. The program writes no other row (the header has 11 cells, records have one cell per field after the tag), but a file edited by hand could hold such a row. On it the source raises an IndexError wherever it reads a missing cell: `row[0]` of an empty row, or `row[1]` once the tag test before it has passed (unconditionally in the delete at line 297). The option lookup swallows it and returns the options found so far. The uniqueness check swallows it and accepts. Add's member check (lines 187-193) runs before the `try` at line 199 and lets it through. Update and delete catch it, show an error dialog and write nothing. The refresh, the attendance view, the search, the summary sheet (`member[0]`, line 376) and the chart (`member[0]`, line 452) do not catch it. These paths are not modelled.
- Store.GymStore.Add: the error dialog for a failed write or refresh ("Failed to add record") is not modelled. A failed refresh cannot happen on rows satisfying the invariant above.
- Store.GymStore.Update: models only the rewrite at lines 220-231, with the id as a parameter. The callback as written reads the local `member_id` before assigning it (line 213), so in the program it always raises before reaching the rewrite.
- Store.GymStore.DeleteMember and Store.GymStore.Update: the error dialogs for failed file writes are not modelled.
- The first definition of `validate_unique_entries` (lines 26-45) is out: it is replaced by the identical one at lines 110-137 when the module loads.
- `create_final_sheet` and `visualize_gym_data` build a list for every table; only the Member list is read, and only that one is modelled.
- The chart itself is out: `datetime.strptime` on the join dates and the plotting (lines 459-470). Only the row selection (lines 442-457) is modelled.
- Errors that are exceptions in the source are explicit outcomes in the model: `Uniqueness.Verdict.Raised`, `Attendance.AttendanceView.ReadFailed`, `Store.SearchOutcome.SearchAborted`, `Records.ChartRows.ChartAborted` from `Store.GymStore.ChartRowsFor` (the `next(reader)` at line 445 on an empty file), and `None` from `Store.GymStore.FinalSheet`.
