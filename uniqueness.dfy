/**
 * The uniqueness check (validate_unique_entries): a scan of the rows of one
 * table for a row that repeats, in a field designated unique, the value a
 * candidate record would write there. A read that raises ends the check
 * with the record accepted.
 */
module Uniqueness {
  import opened Schema
  import opened Records

  /** The fields designated unique, in whichever table they occur. */
  const UniqueBase: seq<string> := ["Member_ID", "Email", "Phone", "Appointment_ID"]

  /** The unique fields for table `t`: Appointment appends `Appointment_ID` once more, which changes no membership. */
  function UniqueFields(t: string): (u: seq<string>)
    ensures forall f :: f in u <==> f in UniqueBase
  {
    UniqueBase + (if t == "Appointment" then ["Appointment_ID"] else [])
  }

  /** How a scan ends: nothing found, a repeated value in `field`, or a read that raised. */
  datatype Verdict = Clear | Duplicate(field: string) | Raised

  /** The inner loop over one row, from schema position `idx` on. */
  function FieldVerdict(row: Row, fields: seq<string>, unique: seq<string>, data: seq<string>, idx: nat): Verdict
    decreases |fields| - idx
  {
    if idx >= |fields| then Clear
    else if fields[idx] in unique then
      if idx + 1 >= |row| || idx >= |data| then Raised
      else if row[idx + 1] == data[idx] then Duplicate(fields[idx])
      else FieldVerdict(row, fields, unique, data, idx + 1)
    else FieldVerdict(row, fields, unique, data, idx + 1)
  }

  /** The outer loop over the rows in file order, stopping at the first verdict that is not Clear. */
  function RowsVerdict(rows: seq<Row>, t: string, data: seq<string>): Verdict
  {
    if rows == [] then Clear
    else if |rows[0]| == 0 then Raised
    else if rows[0][0] != t then RowsVerdict(rows[1..], t, data)
    else if !IsTable(t) then Raised
    else match FieldVerdict(rows[0], Fields(t), UniqueFields(t), data, 0)
      case Clear => RowsVerdict(rows[1..], t, data)
      case v => v
  }

  /** The pair the check returns: (False, field) on a repeated value, (True, "") otherwise. */
  function Validate(rows: seq<Row>, t: string, data: seq<string>): (bool, string)
  {
    match RowsVerdict(rows, t, data)
    case Duplicate(f) => (false, f)
    case _ => (true, "")
  }

  /** Row `row` of table `t` repeats the candidate's value in unique field number `idx`. */
  predicate Conflict(row: Row, t: string, data: seq<string>, idx: int) {
    && 0 <= idx < |Fields(t)|
    && Fields(t)[idx] in UniqueBase
    && idx + 1 < |row|
    && idx < |data|
    && row[0] == t
    && row[idx + 1] == data[idx]
  }

  /** The conflict at row `i`, field `j` is the first one in file order, then schema order. */
  ghost predicate FirstConflict(rows: seq<Row>, t: string, data: seq<string>, i: int, j: int) {
    && 0 <= i < |rows|
    && Conflict(rows[i], t, data, j)
    && (forall j' :: j' < j ==> !Conflict(rows[i], t, data, j'))
    && (forall i', j' :: 0 <= i' < i ==> !Conflict(rows[i'], t, data, j'))
  }

  /** No read of the scan can raise: a known table, a full candidate, and full rows of that table. */
  predicate Shaped(rows: seq<Row>, t: string, data: seq<string>) {
    && IsTable(t)
    && |data| >= |Fields(t)|
    && forall i :: 0 <= i < |rows| ==> |rows[i]| > 0 && (rows[i][0] == t ==> |rows[i]| > |Fields(t)|)
  }

  /** Field `idx` of `fields` is unique and `row` holds the candidate's value there. */
  predicate Repeats(row: Row, fields: seq<string>, unique: seq<string>, data: seq<string>, idx: int) {
    && 0 <= idx < |fields|
    && fields[idx] in unique
    && idx + 1 < |row|
    && idx < |data|
    && row[idx + 1] == data[idx]
  }

  /** The inner loop over a full row never raises and stops at the first repeated unique field. */
  lemma {:induction false} FieldScanFirst(row: Row, fields: seq<string>, unique: seq<string>, data: seq<string>, idx: nat)
    requires |row| > |fields| && |data| >= |fields| && idx <= |fields|
    ensures FieldVerdict(row, fields, unique, data, idx) != Raised
    ensures FieldVerdict(row, fields, unique, data, idx) == Clear <==>
      forall j :: idx <= j ==> !Repeats(row, fields, unique, data, j)
    ensures FieldVerdict(row, fields, unique, data, idx).Duplicate? ==>
      exists j :: (idx <= j && Repeats(row, fields, unique, data, j) &&
        FieldVerdict(row, fields, unique, data, idx).field == fields[j] &&
        forall j' :: idx <= j' < j ==> !Repeats(row, fields, unique, data, j'))
    decreases |fields| - idx
  {
    if idx < |fields| {
      FieldScanFirst(row, fields, unique, data, idx + 1);
      var v := FieldVerdict(row, fields, unique, data, idx);
      if v.Duplicate? && !Repeats(row, fields, unique, data, idx) {
        var j :| idx + 1 <= j && Repeats(row, fields, unique, data, j) && v.field == fields[j] &&
          forall j' :: idx + 1 <= j' < j ==> !Repeats(row, fields, unique, data, j');
        assert forall j' :: idx <= j' < j ==> !Repeats(row, fields, unique, data, j');
      }
    }
  }

  /** On a full row of table `t`, the inner loop finds nothing exactly when no field conflicts, and otherwise names the first conflicting field. */
  lemma FieldVerdictFirst(row: Row, t: string, data: seq<string>)
    requires IsTable(t) && |row| > |Fields(t)| && |data| >= |Fields(t)| && row[0] == t
    ensures FieldVerdict(row, Fields(t), UniqueFields(t), data, 0) != Raised
    ensures FieldVerdict(row, Fields(t), UniqueFields(t), data, 0) == Clear <==>
      forall j :: !Conflict(row, t, data, j)
    ensures FieldVerdict(row, Fields(t), UniqueFields(t), data, 0).Duplicate? ==>
      exists j :: (Conflict(row, t, data, j) &&
        FieldVerdict(row, Fields(t), UniqueFields(t), data, 0).field == Fields(t)[j] &&
        forall j' :: 0 <= j' < j ==> !Conflict(row, t, data, j'))
  {
    var fs, u := Fields(t), UniqueFields(t);
    FieldScanFirst(row, fs, u, data, 0);
    assert forall j :: Conflict(row, t, data, j) <==> Repeats(row, fs, u, data, j);
    var v := FieldVerdict(row, fs, u, data, 0);
    if v.Duplicate? {
      var j :| 0 <= j && Repeats(row, fs, u, data, j) && v.field == fs[j] &&
        forall j' :: 0 <= j' < j ==> !Repeats(row, fs, u, data, j');
      assert Conflict(row, t, data, j);
    }
  }

  /** A scan of shaped rows ends in Clear exactly when no row conflicts, and otherwise names the first conflict's field. */
  lemma {:induction false} RowsVerdictFirst(rows: seq<Row>, t: string, data: seq<string>)
    requires Shaped(rows, t, data)
    ensures RowsVerdict(rows, t, data) != Raised
    ensures RowsVerdict(rows, t, data) == Clear <==>
      forall i, j :: 0 <= i < |rows| ==> !Conflict(rows[i], t, data, j)
    ensures RowsVerdict(rows, t, data).Duplicate? ==>
      exists i, j :: FirstConflict(rows, t, data, i, j) &&
        RowsVerdict(rows, t, data).field == Fields(t)[j]
  {
    if rows != [] {
      var rest := rows[1..];
      assert Shaped(rest, t, data) by {
        assert forall i :: 0 <= i < |rest| ==> rest[i] == rows[i + 1];
      }
      RowsVerdictFirst(rest, t, data);
      assert forall i, j :: 0 <= i < |rest| ==> (Conflict(rest[i], t, data, j) <==> Conflict(rows[i + 1], t, data, j));
      var head := if rows[0][0] == t then FieldVerdict(rows[0], Fields(t), UniqueFields(t), data, 0) else Clear;
      if rows[0][0] == t {
        FieldVerdictFirst(rows[0], t, data);
      }
      assert head == Clear <==> forall j :: !Conflict(rows[0], t, data, j);
      if head == Clear {
        assert RowsVerdict(rows, t, data) == RowsVerdict(rest, t, data);
        if RowsVerdict(rest, t, data).Duplicate? {
          var i, j :| FirstConflict(rest, t, data, i, j) && RowsVerdict(rest, t, data).field == Fields(t)[j];
          assert FirstConflict(rows, t, data, i + 1, j) by {
            forall i', j' | 0 <= i' < i + 1
              ensures !Conflict(rows[i'], t, data, j')
            {
              if i' > 0 {
                assert rows[i'] == rest[i' - 1];
              }
            }
          }
        } else {
          forall i, j | 0 <= i < |rows|
            ensures !Conflict(rows[i], t, data, j)
          {
            if i > 0 {
              assert rows[i] == rest[i - 1];
            }
          }
        }
      } else {
        var j :| Conflict(rows[0], t, data, j) && head.field == Fields(t)[j] &&
          forall j' :: 0 <= j' < j ==> !Conflict(rows[0], t, data, j');
        assert FirstConflict(rows, t, data, 0, j);
      }
    }
  }

  /** The check accepts exactly when no row of the table repeats a unique value of the candidate. */
  lemma ValidateAcceptsIffNoConflict(rows: seq<Row>, t: string, data: seq<string>)
    requires Shaped(rows, t, data)
    ensures Validate(rows, t, data) == (true, "") <==>
      forall i, j :: 0 <= i < |rows| ==> !Conflict(rows[i], t, data, j)
  {
    RowsVerdictFirst(rows, t, data);
    if RowsVerdict(rows, t, data).Duplicate? {
      var i, j :| FirstConflict(rows, t, data, i, j) && RowsVerdict(rows, t, data).field == Fields(t)[j];
    }
  }

  /** A refusal names the field of the first conflict, in file order and then schema order. */
  lemma ValidateReportsFirstConflict(rows: seq<Row>, t: string, data: seq<string>)
    requires Shaped(rows, t, data) && !Validate(rows, t, data).0
    ensures exists i, j :: FirstConflict(rows, t, data, i, j) && Validate(rows, t, data).1 == Fields(t)[j]
  {
    RowsVerdictFirst(rows, t, data);
  }

  /** A row of another table never changes the verdict. */
  lemma {:induction false} OtherTablesIgnored(a: seq<Row>, r: Row, b: seq<Row>, t: string, data: seq<string>)
    requires |r| > 0 && r[0] != t
    ensures RowsVerdict(a + [r] + b, t, data) == RowsVerdict(a + b, t, data)
  {
    if a == [] {
      assert a + [r] + b == [r] + b;
      assert ([r] + b)[1..] == b;
      assert a + b == b;
    } else {
      OtherTablesIgnored(a[1..], r, b, t, data);
      assert (a + [r] + b)[1..] == a[1..] + [r] + b;
      assert (a + b)[1..] == a[1..] + b;
      assert (a + [r] + b)[0] == a[0] == (a + b)[0];
    }
  }

  /** Workout_Zone and Staff have no unique field, so their check never refuses. */
  lemma {:induction false} NoUniqueFieldNoRefusal(rows: seq<Row>, t: string, data: seq<string>)
    requires t == "Workout_Zone" || t == "Staff"
    ensures Validate(rows, t, data).0
  {
    if rows != [] {
      NoUniqueFieldNoRefusal(rows[1..], t, data);
      if |rows[0]| > 0 && rows[0][0] == t {
        var fields := Fields(t);
        forall idx: nat | idx <= |fields|
          ensures FieldVerdict(rows[0], fields, UniqueFields(t), data, idx) == Clear
        {
          FieldsNotUnique(rows[0], t, data, idx);
        }
      }
    }
  }

  lemma {:induction false} FieldsNotUnique(row: Row, t: string, data: seq<string>, idx: nat)
    requires t == "Workout_Zone" || t == "Staff"
    requires idx <= |Fields(t)|
    ensures FieldVerdict(row, Fields(t), UniqueFields(t), data, idx) == Clear
    decreases |Fields(t)| - idx
  {
    if idx < |Fields(t)| {
      assert Fields(t)[idx] !in UniqueFields(t);
      FieldsNotUnique(row, t, data, idx + 1);
    }
  }

  /** Once `[t] + d` is appended, a candidate sharing any unique value with `d` is refused. */
  lemma RefusedAfterAppend(rows: seq<Row>, t: string, d: seq<string>, candidate: seq<string>, j: nat)
    requires Shaped(rows + [[t] + d], t, candidate)
    requires |d| == |Fields(t)| && j < |Fields(t)| && Fields(t)[j] in UniqueBase && d[j] == candidate[j]
    ensures !Validate(rows + [[t] + d], t, candidate).0
  {
    var all := rows + [[t] + d];
    assert Conflict(all[|rows|], t, candidate, j);
    ValidateAcceptsIffNoConflict(all, t, candidate);
  }

  /** A second Member with an id already on file is refused on Member_ID. */
  lemma SecondMemberWithSameId(first: seq<string>, second: seq<string>)
    requires |first| == |second| == |Fields("Member")| && first[0] == second[0]
    ensures Validate([Header, ["Member"] + first], "Member", second) == (false, "Member_ID")
  {
    HeaderShape();
    var rows := [Header, ["Member"] + first];
    var member := ["Member"] + first;
    assert rows[1..] == [member];
    assert "Member_ID" in UniqueFields("Member");
    assert FieldVerdict(member, Fields("Member"), UniqueFields("Member"), second, 0) == Duplicate("Member_ID");
    assert RowsVerdict([member], "Member", second) == Duplicate("Member_ID");
  }

  /** A Member row holding only an id ends the scan on its missing Email, so a later repeated id goes unnoticed. */
  lemma ShortRowEndsCheck(id: string, rest: seq<Row>, candidate: seq<string>)
    requires |candidate| == |Fields("Member")| && candidate[0] != id
    ensures Validate([["Member", id]] + rest, "Member", candidate) == (true, "")
  {
    var rows := [["Member", id]] + rest;
    assert rows[0] == ["Member", id];
    var fields := Fields("Member");
    var unique := UniqueFields("Member");
    assert FieldVerdict(rows[0], fields, unique, candidate, 2) == Raised;
    assert FieldVerdict(rows[0], fields, unique, candidate, 1) == Raised;
  }
}
