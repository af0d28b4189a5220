/**
 * The static schema of the gym store: the seven tables with their fields in
 * order, the date-typed fields, the header row, and the rule that decides
 * which table an `_ID` field draws its choices from.
 */
module Schema {
  import opened Wrappers
  import opened Text

  /** The tables, in the order the schema dictionary lists them. */
  const TableNames: seq<string> :=
    ["Member", "Attendance", "Gym_Location", "Workout_Zone", "Payment", "Appointment", "Staff"]

  predicate IsTable(t: string) {
    t in TableNames
  }

  /** The number of field columns of the header row. */
  const FieldColumns: nat := 10

  /** The fields of table `t` in schema order; no fields for a name the schema does not know. */
  function Fields(t: string): (fs: seq<string>)
    ensures IsTable(t) <==> fs != []
    ensures IsTable(t) ==> 4 <= |fs| <= FieldColumns
  {
    if t == "Member" then
      ["Member_ID", "Name", "Email", "Health_Status", "Gym_Location",
       "Workout_Zone", "Join_Date", "Membership_Type", "Subscription_Start", "Subscription_End"]
    else if t == "Attendance" then ["Attendance_ID", "Member_ID", "Class_ID", "Date_Time", "Attendance"]
    else if t == "Gym_Location" then ["Location_ID", "Name", "Address", "Phone"]
    else if t == "Workout_Zone" then ["Zone_ID", "Location_ID", "Name", "Type"]
    else if t == "Payment" then ["Payment_ID", "Member_ID", "Amount", "Date", "Method"]
    else if t == "Appointment" then ["Appointment_ID", "Member_ID", "Trainer_ID", "Type", "Date_Time"]
    else if t == "Staff" then ["Staff_ID", "Name", "Role", "Zone_ID"]
    else []
  }

  const DateFields: seq<string> := ["Join_Date", "Subscription_Start", "Subscription_End", "Date", "Date_Time"]

  /** The row written when the file is created: the word Table, then ten times the word Field. */
  const Header: seq<string> := ["Table"] + seq(FieldColumns, _ => "Field")

  lemma HeaderShape()
    ensures |Header| == 1 + FieldColumns
    ensures Header[0] == "Table" && !IsTable(Header[0])
    ensures forall i :: 1 <= i < |Header| ==> Header[i] == "Field"
  {
  }

  /** The tables whose name, last character dropped, begins `field`, in schema order. */
  function Candidates(field: string, keys: seq<string>): seq<string>
  {
    if keys == [] then []
    else
      var rest := Candidates(field, keys[1..]);
      if StartsWith(field, DropLast(keys[0])) then
        [keys[0]] + rest
      else
        rest
  }

  /** The candidates are exactly the keys that, last character dropped, begin `field`. */
  lemma {:induction false} CandidatesMembership(field: string, keys: seq<string>)
    ensures forall k :: k in Candidates(field, keys) <==> k in keys && StartsWith(field, DropLast(k))
  {
    if keys != [] {
      CandidatesMembership(field, keys[1..]);
      assert keys == [keys[0]] + keys[1..];
    }
  }

  /** The first candidate is the first key, in order, that matches. */
  lemma {:induction false} CandidatesFirst(field: string, keys: seq<string>)
    requires Candidates(field, keys) != []
    ensures exists j :: (0 <= j < |keys| && keys[j] == Candidates(field, keys)[0] &&
      forall i :: 0 <= i < j ==> !StartsWith(field, DropLast(keys[i])))
  {
    var rest := keys[1..];
    if StartsWith(field, DropLast(keys[0])) {
      assert Candidates(field, keys) == [keys[0]] + Candidates(field, rest);
    } else {
      assert Candidates(field, keys) == Candidates(field, rest);
      CandidatesFirst(field, rest);
      var j :| 0 <= j < |rest| && rest[j] == Candidates(field, rest)[0] &&
        forall i :: 0 <= i < j ==> !StartsWith(field, DropLast(rest[i]));
      assert keys[j + 1] == rest[j];
      forall i | 0 <= i < j + 1
        ensures !StartsWith(field, DropLast(keys[i]))
      {
        if i > 0 {
          assert keys[i] == rest[i - 1];
        }
      }
    }
  }

  /**
   * The foreign table of field `field` on table `t`'s form: a field ending in
   * `_ID` other than the table's first field, resolved to the first candidate.
   */
  function ForeignTable(t: string, field: string): (r: Option<string>)
    requires IsTable(t)
    ensures r.Some? <==>
      && EndsWith(field, "_ID")
      && field != Fields(t)[0]
      && exists k :: k in TableNames && StartsWith(field, DropLast(k))
    ensures r.Some? ==> exists j :: (0 <= j < |TableNames| && TableNames[j] == r.value &&
      StartsWith(field, DropLast(r.value)) &&
      forall i :: 0 <= i < j ==> !StartsWith(field, DropLast(TableNames[i])))
  {
    if EndsWith(field, "_ID") && field != Fields(t)[0] then
      var candidates := Candidates(field, TableNames);
      CandidatesMembership(field, TableNames);
      if candidates == [] then None
      else
        assert candidates[0] in candidates;
        CandidatesFirst(field, TableNames);
        Some(candidates[0])
    else None
  }

  /** The three kinds of input a form gives a field. */
  datatype Widget = KeyChoice(table: string) | DatePicker | TextEntry

  /** How the form for table `t` asks for field `field`: key choices first, then dates, then free text. */
  function WidgetFor(t: string, field: string): (w: Widget)
    requires IsTable(t)
    ensures w.KeyChoice? <==> ForeignTable(t, field).Some?
    ensures w.KeyChoice? ==> w.table in TableNames && w.table == ForeignTable(t, field).value
    ensures w == DatePicker <==> ForeignTable(t, field).None? && field in DateFields
  {
    match ForeignTable(t, field)
    case Some(k) => KeyChoice(k)
    case None => if field in DateFields then DatePicker else TextEntry
  }

  /** The prefixes the resolution compares fields against, one per table. */
  lemma KeyPrefixes()
    ensures DropLast("Member") == "Membe"
    ensures DropLast("Attendance") == "Attendanc"
    ensures DropLast("Gym_Location") == "Gym_Locatio"
    ensures DropLast("Workout_Zone") == "Workout_Zon"
    ensures DropLast("Payment") == "Paymen"
    ensures DropLast("Appointment") == "Appointmen"
    ensures DropLast("Staff") == "Staf"
  {
  }

  /** A field whose last character is not `D` does not end in `_ID`. */
  lemma NotAnIdField(field: string)
    requires field != [] && field[|field| - 1] != 'D'
    ensures !EndsWith(field, "_ID")
  {
    if EndsWith(field, "_ID") {
      EndsWithLast(field, "_ID");
    }
  }

  /** Every table name is longer than one character and starts with one of `MAGWPS`. */
  lemma TableInitial(k: string)
    requires k in TableNames
    ensures |k| >= 2 && k[0] in "MAGWPS"
  {
  }

  /** A field starting with none of the tables' initials has no candidate table. */
  lemma NoCandidate(field: string)
    requires field != [] && field[0] !in "MAGWPS"
    ensures Candidates(field, TableNames) == []
  {
    forall k | k in TableNames
      ensures !StartsWith(field, DropLast(k))
    {
      TableInitial(k);
      var p := DropLast(k);
      assert p[0] == k[0];
      if |p| <= |field| {
        assert field[..|p|][0] == field[0];
      }
    }
    CandidatesNone(field, TableNames);
  }

  /** When no key matches, there are no candidates. */
  lemma {:induction false} CandidatesNone(field: string, keys: seq<string>)
    requires forall k :: k in keys ==> !StartsWith(field, DropLast(k))
    ensures Candidates(field, keys) == []
  {
    if keys != [] {
      assert keys[0] in keys;
      assert forall k :: k in keys[1..] ==> k in keys;
      CandidatesNone(field, keys[1..]);
    }
  }

  lemma MemberIdResolves(t: string)
    requires IsTable(t)
    ensures ForeignTable(t, "Member_ID") == if t != "Member" then Some("Member") else None
  {
    KeyPrefixes();
    assert StartsWith("Member_ID", DropLast("Member"));
  }

  /** Over the current schema only a non-first `Member_ID` has a foreign table, and it is Member. */
  lemma ForeignTablesOfSchema(t: string, field: string)
    requires IsTable(t) && field in Fields(t)
    ensures ForeignTable(t, field) ==
      if field == "Member_ID" && t != "Member" then Some("Member") else None
  {
    if field == "Member_ID" {
      MemberIdResolves(t);
    } else if field[|field| - 1] != 'D' {
      NotAnIdField(field);
    } else if field[0] !in "MAGWPS" {
      NoCandidate(field);
    } else {
      OnlyFirstIdFields(t, field);
    }
  }

  /** Apart from `Member_ID`, every field ending in `D` and starting with a table's initial is its table's first field. */
  lemma OnlyFirstIdFields(t: string, field: string)
    requires IsTable(t) && field in Fields(t) && field != "Member_ID"
    requires field[|field| - 1] == 'D' && field[0] in "MAGWPS"
    ensures field == Fields(t)[0]
  {
    var fs := Fields(t);
    var i :| 0 <= i < |fs| && fs[i] == field;
    if t == "Member" {
      assert false;
    } else if t == "Attendance" {
      assert i == 0;
    } else if t == "Gym_Location" {
      assert i == 0;
    } else if t == "Workout_Zone" {
      assert i == 0;
    } else if t == "Payment" {
      assert i == 0;
    } else if t == "Appointment" {
      assert i == 0;
    } else {
      assert i == 0;
    }
  }

  /** Every form over the current schema: member choices for a non-first `Member_ID`, pickers for the date fields, text otherwise. */
  lemma WidgetsOfSchema(t: string, field: string)
    requires IsTable(t) && field in Fields(t)
    ensures WidgetFor(t, field) ==
      if field == "Member_ID" && t != "Member" then KeyChoice("Member")
      else if field in DateFields then DatePicker
      else TextEntry
  {
    ForeignTablesOfSchema(t, field);
  }
}
