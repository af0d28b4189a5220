/**
 * The record store as the program drives it: the rows of the shared file
 * and the module-level member cache, with the operations the forms and
 * buttons run on them. Each scan is a loop over the rows proved against the
 * matching function of `Records`, `Uniqueness` or `Attendance`; outcomes
 * stand for the warning, notice and success dialogs.
 */
module Store {
  import opened Wrappers
  import opened Text
  import opened Schema
  import opened Records
  import Uniqueness
  import Attendance

  /** The add form's outcomes: "All fields must be filled.", "Invalid Member ID ...", success. */
  datatype AddOutcome = MissingField | UnknownMember | Added

  /** The delete button's outcomes: "Please enter a valid Member ID ...", success. */
  datatype DeleteOutcome = EmptyId | Deleted

  /** The search button's outcomes: "Please enter a search term.", an empty file, "No matching member found.", a hit. */
  datatype SearchOutcome = EmptyTerm | SearchAborted | NotFound | Found

  /** The record an add writes after the tag: Attendance has its Date_Time replaced by the time of day. */
  function Stamped(t: string, data: seq<string>, now: string): (record: seq<string>)
    requires t == "Attendance" ==> |data| > 3
    ensures |record| == |data|
    ensures forall j :: 0 <= j < |data| && (t != "Attendance" || j != 3) ==> record[j] == data[j]
    ensures t == "Attendance" ==> record[3] == now
  {
    if t == "Attendance" then data[3 := now] else data
  }

  class GymStore {
    /** The rows of the file, header included, in file order. */
    var rows: seq<Row>
    /** The rows of the id last looked up, one list per table. */
    var memberData: map<string, seq<Row>>

    ghost predicate Valid()
      reads this
    {
      WellFormed(rows)
    }

    /** Opens the store: an existing file is read as it is, a missing one is created holding the header. */
    constructor (existing: Option<seq<Row>>)
      requires existing.Some? ==> WellFormed(existing.value)
      ensures Valid()
      ensures rows == if existing.Some? then existing.value else [Header]
      ensures memberData == map[]
    {
      HeaderShape();
      rows := if existing.Some? then existing.value else [Header];
      memberData := map[];
    }

    /** The choices offered for a key field: column 1 of every row of table `foreignKey`; `tableName` is not used. */
    method GetForeignKeyOptions(tableName: string, foreignKey: string) returns (options: seq<string>)
      requires Valid()
      ensures options == Options(rows, foreignKey)
    {
      options := [];
      var i := 0;
      while i < |rows|
        invariant 0 <= i <= |rows|
        invariant options == Options(rows[..i], foreignKey)
      {
        assert rows[..i + 1][..i] == rows[..i];
        if rows[i][0] == foreignKey {
          options := options + [rows[i][1]];
        }
        i := i + 1;
      }
      assert rows[..i] == rows;
    }

    /** The uniqueness check of a candidate record `data` for table `t`. */
    method ValidateUniqueEntries(t: string, data: seq<string>) returns (valid: bool, field: string)
      ensures (valid, field) == Uniqueness.Validate(rows, t, data)
    {
      var unique := Uniqueness.UniqueFields(t);
      var i := 0;
      while i < |rows|
        invariant 0 <= i <= |rows|
        invariant Uniqueness.RowsVerdict(rows, t, data) == Uniqueness.RowsVerdict(rows[i..], t, data)
      {
        var row := rows[i];
        assert rows[i..][0] == row && rows[i..][1..] == rows[i + 1..];
        if |row| == 0 {
          return true, "";
        }
        if row[0] == t {
          if !IsTable(t) {
            return true, "";
          }
          var fields := Fields(t);
          var idx := 0;
          while idx < |fields|
            invariant 0 <= idx <= |fields|
            invariant Uniqueness.FieldVerdict(row, fields, unique, data, 0) ==
              Uniqueness.FieldVerdict(row, fields, unique, data, idx)
          {
            if fields[idx] in unique {
              if idx + 1 >= |row| || idx >= |data| {
                return true, "";
              }
              if row[idx + 1] == data[idx] {
                return false, fields[idx];
              }
            }
            idx := idx + 1;
          }
        }
        i := i + 1;
      }
      return true, "";
    }

    /** The Attendance form's check that some Member row carries the id. */
    method HasMember(memberId: string) returns (found: bool)
      requires Valid()
      ensures found <==> MemberExists(rows, memberId)
    {
      var i := 0;
      while i < |rows|
        invariant 0 <= i <= |rows|
        invariant forall j :: 0 <= j < i ==> !(rows[j][0] == "Member" && rows[j][1] == memberId)
      {
        if rows[i][0] == "Member" && rows[i][1] == memberId {
          return true;
        }
        i := i + 1;
      }
      return false;
    }

    /** Refills the member cache with the rows whose column 1 is `memberId`. */
    method Populate(memberId: string)
      requires Valid()
      modifies this`memberData
      ensures memberData == Grouped(rows, memberId)
    {
      memberData := map t | t in TableNames :: [];
      var i := 0;
      while i < |rows|
        invariant 0 <= i <= |rows|
        invariant memberData == Grouped(rows[..i], memberId)
      {
        var row := rows[i];
        assert rows[..i + 1] == rows[..i] + [row];
        GroupedSnoc(rows[..i], row, memberId);
        if IsTable(row[0]) && row[1] == memberId {
          memberData := memberData[row[0] := memberData[row[0]] + [row[1..]]];
        }
        i := i + 1;
      }
      assert rows[..i] == rows;
    }

    /** The add form: refuse an empty field, or an Attendance for a member not on file; otherwise append and refresh the cache. */
    method Add(t: string, data: seq<string>, now: string) returns (outcome: AddOutcome)
      requires Valid() && IsTable(t) && |data| == |Fields(t)|
      modifies this
      ensures Valid()
      ensures outcome == MissingField <==> "" in data
      ensures outcome == UnknownMember <==> "" !in data && t == "Attendance" && !MemberExists(old(rows), data[1])
      ensures outcome == Added ==>
        && rows == old(rows) + [[t] + Stamped(t, data, now)]
        && memberData == Grouped(rows, data[0])
      ensures outcome != Added ==> rows == old(rows) && memberData == old(memberData)
    {
      if "" in data {
        return MissingField;
      }
      if t == "Attendance" {
        var known := HasMember(data[1]);
        if !known {
          return UnknownMember;
        }
      }
      rows := rows + [[t] + Stamped(t, data, now)];
      Populate(data[0]);
      outcome := Added;
    }

    /** The update rewrite: every row of `t` with `id` in column 1 becomes `[t] + updated`, unless a field is empty. */
    method Update(t: string, id: string, updated: seq<string>) returns (written: bool)
      requires Valid() && IsTable(t) && |updated| == |Fields(t)|
      modifies this
      ensures Valid()
      ensures written <==> "" !in updated
      ensures written ==> rows == Rewritten(old(rows), t, id, updated) && memberData == Grouped(rows, id)
      ensures !written ==> rows == old(rows) && memberData == old(memberData)
    {
      if "" in updated {
        return false;
      }
      var out: seq<Row> := [];
      var i := 0;
      while i < |rows|
        invariant 0 <= i <= |rows|
        invariant |out| == i
        invariant forall j :: 0 <= j < i ==> out[j] == RewriteRow(rows[j], t, id, updated)
      {
        if rows[i][0] == t && rows[i][1] == id {
          out := out + [[t] + updated];
        } else {
          out := out + [rows[i]];
        }
        i := i + 1;
      }
      rows := out;
      Populate(id);
      written := true;
    }

    /** The delete button: drop every row with `memberId` in column 1 except Appointment rows, then clear the cache. */
    method DeleteMember(memberId: string) returns (outcome: DeleteOutcome)
      requires Valid()
      modifies this
      ensures Valid()
      ensures outcome == EmptyId <==> memberId == ""
      ensures outcome == Deleted ==> rows == Survivors(old(rows), memberId) && memberData == Grouped(rows, "dummy_id")
      ensures outcome == EmptyId ==> rows == old(rows) && memberData == old(memberData)
    {
      if memberId == "" {
        return EmptyId;
      }
      var kept: seq<Row> := [];
      var i := 0;
      while i < |rows|
        invariant 0 <= i <= |rows|
        invariant kept == Survivors(rows[..i], memberId)
      {
        assert rows[..i + 1][..i] == rows[..i];
        if rows[i][1] != memberId || rows[i][0] == "Appointment" {
          kept := kept + [rows[i]];
        }
        i := i + 1;
      }
      assert rows[..i] == rows;
      rows := kept;
      Populate("dummy_id");
      outcome := Deleted;
    }

    /** The attendance view for `memberId`: the first record of each key (first token of Class_ID). */
    method ShowAttendance(memberId: string) returns (view: Attendance.AttendanceView)
      requires Valid()
      ensures view == Attendance.View(rows, memberId)
    {
      var info: seq<Row> := [];
      var dates: set<string> := {};
      var i := 0;
      while i < |rows|
        invariant 0 <= i <= |rows|
        invariant Attendance.Scan(rows[..i], memberId) == Some(Attendance.Kept(info, dates))
      {
        var row := rows[i];
        assert rows[..i + 1][..i] == rows[..i];
        if row[0] == "Attendance" && row[1] == memberId {
          var key := if |row| < 4 then None else FirstToken(row[3]);
          assert key == Attendance.RecordKey(row[1..]);
          if key.None? {
            Attendance.ScanFailureStays(rows, memberId, i + 1);
            return Attendance.ReadFailed;
          }
          if key.value !in dates {
            dates := dates + {key.value};
            info := info + [row[1..]];
          }
        }
        i := i + 1;
      }
      assert rows[..i] == rows;
      if info == [] {
        view := Attendance.NoRecords;
      } else {
        view := Attendance.Records(info);
      }
    }

    /** The read loop of the summary sheet and the chart: the data of each Member row after the first row, in file order. */
    method MemberRows() returns (members: seq<Row>)
      requires Valid() && rows != []
      ensures members == TableData(rows[1..], "Member")
    {
      members := [];
      var i := 1;
      while i < |rows|
        invariant 1 <= i <= |rows|
        invariant members == TableData(rows[1..i], "Member")
      {
        assert rows[1..i + 1][..i - 1] == rows[1..i];
        if rows[i][0] == "Member" {
          members := members + [rows[i][1..]];
        }
        i := i + 1;
      }
      assert rows[1..i] == rows[1..];
    }

    /** The member summary sheet: up to ten cells of each Member row after the first row. */
    method FinalSheet() returns (sheet: Option<seq<Row>>)
      requires Valid()
      ensures sheet == MemberSheet(rows)
    {
      if rows == [] {
        return None;
      }
      var members := MemberRows();
      var summary: seq<Row> := [];
      var j := 0;
      while j < |members|
        invariant 0 <= j <= |members|
        invariant |summary| == j
        invariant forall k :: 0 <= k < j ==> summary[k] == Truncate(members[k], FieldColumns)
      {
        summary := summary + [Truncate(members[j], FieldColumns)];
        j := j + 1;
      }
      assert summary == seq(|members|, k requires 0 <= k < |members| => Truncate(members[k], FieldColumns));
      sheet := Some(summary);
    }

    /** The rows the join-date chart plots: Member data after the first row, filtered on its first cell when an id is given. */
    method ChartRowsFor(memberId: string) returns (chart: ChartRows)
      requires Valid()
      ensures chart == ChartSelection(rows, memberId)
    {
      if rows == [] {
        return ChartAborted;
      }
      var members := MemberRows();
      if memberId == "" {
        return Bars(members);
      }
      TableDataEntries(rows[1..], "Member");
      assert forall k :: 0 <= k < |members| ==> |members[k]| >= 1 by {
        forall k | 0 <= k < |members|
          ensures |members[k]| >= 1
        {
          assert members[k] in members;
        }
      }
      var chosen: seq<Row> := [];
      var j := 0;
      while j < |members|
        invariant 0 <= j <= |members|
        invariant chosen == KeyedBy(members[..j], memberId)
      {
        assert members[..j + 1][..j] == members[..j];
        if members[j][0] == memberId {
          chosen := chosen + [members[j]];
        }
        j := j + 1;
      }
      assert members[..j] == members;
      if chosen == [] {
        return NoMatchingMember;
      }
      return Bars(chosen);
    }

    /** The search button: find a Member row after the first row with the term in column 1 and load its rows into the cache. */
    method SearchMember(term: string) returns (outcome: SearchOutcome)
      requires Valid()
      modifies this`memberData
      ensures outcome == EmptyTerm <==> term == ""
      ensures outcome == SearchAborted <==> term != "" && rows == []
      ensures outcome == Found <==> term != "" && rows != [] && MemberExists(rows[1..], term)
      ensures outcome == Found ==> memberData == Grouped(rows, term)
      ensures outcome != Found ==> memberData == old(memberData)
    {
      if term == "" {
        return EmptyTerm;
      }
      if rows == [] {
        return SearchAborted;
      }
      var i := 1;
      while i < |rows|
        invariant 1 <= i <= |rows|
        invariant forall j :: 1 <= j < i ==> !(rows[j][0] == "Member" && rows[j][1] == term)
      {
        if rows[i][0] == "Member" && rows[i][1] == term {
          assert rows[1..][i - 1] == rows[i];
          Populate(rows[i][1]);
          return Found;
        }
        i := i + 1;
      }
      assert forall j :: 0 <= j < |rows[1..]| ==> rows[1..][j] == rows[j + 1];
      return NotFound;
    }
  }
}
