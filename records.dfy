/**
 * The file as a sequence of rows, and the scans and rewrites the program
 * runs over it, stated as functions of the rows. Column 0 of a row is its
 * table tag and the rest holds that table's fields in schema order; the
 * methods of `Store.GymStore` are proved against these functions.
 */
module Records {
  import opened Wrappers
  import opened Schema

  type Row = seq<string>

  /** Every row has a tag and a column 1, as every row the program writes does. */
  predicate WellFormed(rows: seq<Row>) {
    forall i :: 0 <= i < |rows| ==> |rows[i]| >= 2
  }

  /** The tag of every row, in file order. */
  function Tags(rows: seq<Row>): (tags: seq<string>)
    requires WellFormed(rows)
    ensures |tags| == |rows|
    ensures forall i :: 0 <= i < |rows| ==> tags[i] == rows[i][0]
  {
    seq(|rows|, i requires 0 <= i < |rows| => rows[i][0])
  }

  lemma TagsSnoc(rows: seq<Row>)
    requires WellFormed(rows) && rows != []
    ensures Tags(rows) == Tags(rows[..|rows| - 1]) + [rows[|rows| - 1][0]]
  {
  }

  // ---------------------------------------------------------------------
  // Rows of one table (the per-table lists built before the member sheet
  // and the chart)
  // ---------------------------------------------------------------------

  /** `row[1:]` of every row tagged `t`, in file order. */
  function TableData(rows: seq<Row>, t: string): seq<Row>
    requires WellFormed(rows)
  {
    if rows == [] then []
    else
      var n := |rows| - 1;
      TableData(rows[..n], t) + (if rows[n][0] == t then [rows[n][1..]] else [])
  }

  lemma {:induction false} TableDataCount(rows: seq<Row>, t: string)
    requires WellFormed(rows)
    ensures |TableData(rows, t)| == multiset(Tags(rows))[t]
  {
    if rows != [] {
      TableDataCount(rows[..|rows| - 1], t);
      TagsSnoc(rows);
    }
  }

  lemma {:induction false} TableDataMembership(rows: seq<Row>, t: string, e: Row)
    requires WellFormed(rows)
    ensures e in TableData(rows, t) <==>
      exists i :: 0 <= i < |rows| && rows[i][0] == t && rows[i][1..] == e
  {
    if rows != [] {
      var n := |rows| - 1;
      TableDataMembership(rows[..n], t, e);
      if e in TableData(rows[..n], t) {
        var i :| 0 <= i < n && rows[..n][i][0] == t && rows[..n][i][1..] == e;
        assert rows[i] == rows[..n][i];
      }
      if i :| 0 <= i < |rows| && rows[i][0] == t && rows[i][1..] == e {
        if i < n {
          assert rows[..n][i] == rows[i];
        }
      }
    }
  }

  lemma {:induction false} TableDataAppend(a: seq<Row>, b: seq<Row>, t: string)
    requires WellFormed(a) && WellFormed(b)
    ensures WellFormed(a + b)
    ensures TableData(a + b, t) == TableData(a, t) + TableData(b, t)
  {
    if b == [] {
      assert a + b == a;
    } else {
      var n := |b| - 1;
      assert (a + b)[..|a| + n] == a + b[..n];
      TableDataAppend(a, b[..n], t);
    }
  }

  /** Every entry of `TableData` has at least one cell. */
  lemma TableDataEntries(rows: seq<Row>, t: string)
    requires WellFormed(rows)
    ensures forall e :: e in TableData(rows, t) ==> |e| >= 1
  {
    forall e | e in TableData(rows, t)
      ensures |e| >= 1
    {
      TableDataMembership(rows, t, e);
    }
  }

  // ---------------------------------------------------------------------
  // Foreign-key options (get_foreign_key_options)
  // ---------------------------------------------------------------------

  /** Column 1 of every row tagged `k`, in file order, duplicates kept. */
  function Options(rows: seq<Row>, k: string): seq<string>
    requires WellFormed(rows)
  {
    if rows == [] then []
    else
      var n := |rows| - 1;
      Options(rows[..n], k) + (if rows[n][0] == k then [rows[n][1]] else [])
  }

  /** The options are the first cells of the table's data rows, one per row tagged `k`. */
  lemma {:induction false} OptionsAreKeys(rows: seq<Row>, k: string)
    requires WellFormed(rows)
    ensures |Options(rows, k)| == |TableData(rows, k)|
    ensures forall j :: 0 <= j < |TableData(rows, k)| ==>
      |TableData(rows, k)[j]| >= 1 && Options(rows, k)[j] == TableData(rows, k)[j][0]
  {
    if rows != [] {
      OptionsAreKeys(rows[..|rows| - 1], k);
    }
  }

  /** As many options as rows tagged `k`. */
  lemma OptionsCount(rows: seq<Row>, k: string)
    requires WellFormed(rows)
    ensures |Options(rows, k)| == multiset(Tags(rows))[k]
  {
    OptionsAreKeys(rows, k);
    TableDataCount(rows, k);
  }

  lemma {:induction false} OptionsMembership(rows: seq<Row>, k: string, x: string)
    requires WellFormed(rows)
    ensures x in Options(rows, k) <==>
      exists i :: 0 <= i < |rows| && rows[i][0] == k && rows[i][1] == x
  {
    if rows != [] {
      var n := |rows| - 1;
      OptionsMembership(rows[..n], k, x);
      if x in Options(rows[..n], k) {
        var i :| 0 <= i < n && rows[..n][i][0] == k && rows[..n][i][1] == x;
        assert rows[i] == rows[..n][i];
      }
      if i :| 0 <= i < |rows| && rows[i][0] == k && rows[i][1] == x {
        if i < n {
          assert rows[..n][i] == rows[i];
        }
      }
    }
  }

  lemma {:induction false} OptionsAppend(a: seq<Row>, b: seq<Row>, k: string)
    requires WellFormed(a) && WellFormed(b)
    ensures WellFormed(a + b)
    ensures Options(a + b, k) == Options(a, k) + Options(b, k)
  {
    if b == [] {
      assert a + b == a;
    } else {
      var n := |b| - 1;
      assert (a + b)[..|a| + n] == a + b[..n];
      OptionsAppend(a, b[..n], k);
    }
  }

  /** An appended row of table `k` is offered last, after every earlier option. */
  lemma OptionsAfterAppend(rows: seq<Row>, k: string, record: seq<string>)
    requires WellFormed(rows) && |record| >= 1
    ensures WellFormed(rows + [[k] + record])
    ensures Options(rows + [[k] + record], k) == Options(rows, k) + [record[0]]
  {
    assert (rows + [[k] + record])[..|rows|] == rows;
  }

  /** Two members added to a fresh file are offered in the order they were added. */
  lemma OptionsAfterTwoMembers(m1: seq<string>, m2: seq<string>)
    requires |m1| >= 1 && |m2| >= 1
    ensures WellFormed([Header, ["Member"] + m1, ["Member"] + m2])
    ensures Options([Header, ["Member"] + m1, ["Member"] + m2], "Member") == [m1[0], m2[0]]
  {
    HeaderShape();
    var rows := [Header, ["Member"] + m1, ["Member"] + m2];
    assert rows[..2] == [Header, ["Member"] + m1];
    assert rows[..2][..1] == [Header];
    assert [Header][..0] == [];
    assert Options([Header], "Member") == [];
    assert Options(rows[..2], "Member") == [m1[0]];
  }

  // ---------------------------------------------------------------------
  // Member lookup (the Attendance check of add_record, search_member)
  // ---------------------------------------------------------------------

  /** Some row tagged Member has `id` in column 1. */
  predicate MemberExists(rows: seq<Row>, id: string)
    requires WellFormed(rows)
  {
    exists i :: 0 <= i < |rows| && rows[i][0] == "Member" && rows[i][1] == id
  }

  // ---------------------------------------------------------------------
  // Per-id grouping (populate_fields_with_member_data)
  // ---------------------------------------------------------------------

  /** `row[1:]` of every row tagged `t` whose column 1 is `id`, in file order. */
  function Selected(rows: seq<Row>, t: string, id: string): seq<Row>
    requires WellFormed(rows)
  {
    if rows == [] then []
    else
      var n := |rows| - 1;
      Selected(rows[..n], t, id) + (if rows[n][0] == t && rows[n][1] == id then [rows[n][1..]] else [])
  }

  /** One list per table, each holding that table's rows for `id`. */
  function Grouped(rows: seq<Row>, id: string): (groups: map<string, seq<Row>>)
    requires WellFormed(rows)
    ensures groups.Keys == set t | t in TableNames
  {
    map t | t in TableNames :: Selected(rows, t, id)
  }

  /** The entries of a data list whose first cell is `id`, in order. */
  function KeyedBy(data: seq<Row>, id: string): seq<Row>
    requires forall j :: 0 <= j < |data| ==> |data[j]| >= 1
  {
    if data == [] then []
    else
      var n := |data| - 1;
      KeyedBy(data[..n], id) + (if data[n][0] == id then [data[n]] else [])
  }

  /** The grouping for `id` is the table's data filtered on its first cell. */
  lemma {:induction false} SelectedIsKeyedTableData(rows: seq<Row>, t: string, id: string)
    requires WellFormed(rows)
    ensures forall j :: 0 <= j < |TableData(rows, t)| ==> |TableData(rows, t)[j]| >= 1
    ensures Selected(rows, t, id) == KeyedBy(TableData(rows, t), id)
  {
    if rows != [] {
      var n := |rows| - 1;
      SelectedIsKeyedTableData(rows[..n], t, id);
      var init := TableData(rows[..n], t);
      if rows[n][0] == t {
        assert TableData(rows, t) == init + [rows[n][1..]];
        assert rows[n][1..][0] == rows[n][1];
        KeyedBySnoc(init, rows[n][1..], id);
      } else {
        assert TableData(rows, t) == init;
        assert Selected(rows, t, id) == Selected(rows[..n], t, id);
      }
    }
  }

  /** Filtering one entry more adds it last exactly when its first cell is `id`. */
  lemma KeyedBySnoc(data: seq<Row>, e: Row, id: string)
    requires forall j :: 0 <= j < |data| ==> |data[j]| >= 1
    requires |e| >= 1
    ensures forall j :: 0 <= j < |data + [e]| ==> |(data + [e])[j]| >= 1
    ensures KeyedBy(data + [e], id) == KeyedBy(data, id) + (if e[0] == id then [e] else [])
  {
    var all := data + [e];
    assert forall j :: 0 <= j < |data| ==> all[j] == data[j];
    assert all[..|data|] == data && all[|data|] == e;
  }

  lemma {:induction false} SelectedMembership(rows: seq<Row>, t: string, id: string, e: Row)
    requires WellFormed(rows)
    ensures e in Selected(rows, t, id) <==>
      exists i :: 0 <= i < |rows| && rows[i][0] == t && rows[i][1] == id && rows[i][1..] == e
  {
    if rows != [] {
      var n := |rows| - 1;
      SelectedMembership(rows[..n], t, id, e);
      if e in Selected(rows[..n], t, id) {
        var i :| 0 <= i < n && rows[..n][i][0] == t && rows[..n][i][1] == id && rows[..n][i][1..] == e;
        assert rows[i] == rows[..n][i];
      }
      if i :| 0 <= i < |rows| && rows[i][0] == t && rows[i][1] == id && rows[i][1..] == e {
        if i < n {
          assert rows[..n][i] == rows[i];
        }
      }
    }
  }

  lemma {:induction false} SelectedAppend(a: seq<Row>, b: seq<Row>, t: string, id: string)
    requires WellFormed(a) && WellFormed(b)
    ensures WellFormed(a + b)
    ensures Selected(a + b, t, id) == Selected(a, t, id) + Selected(b, t, id)
  {
    if b == [] {
      assert a + b == a;
    } else {
      var n := |b| - 1;
      assert (a + b)[..|a| + n] == a + b[..n];
      SelectedAppend(a, b[..n], t, id);
    }
  }

  /** One more row extends the list of its own table and no other. */
  lemma GroupedSnoc(rows: seq<Row>, r: Row, id: string)
    requires WellFormed(rows) && |r| >= 2
    ensures WellFormed(rows + [r])
    ensures Grouped(rows + [r], id) ==
      if IsTable(r[0]) && r[1] == id then Grouped(rows, id)[r[0] := Grouped(rows, id)[r[0]] + [r[1..]]]
      else Grouped(rows, id)
  {
    var all := rows + [r];
    assert all[..|rows|] == rows;
    var before := Grouped(rows, id);
    var after := Grouped(all, id);
    var expected := if IsTable(r[0]) && r[1] == id then before[r[0] := before[r[0]] + [r[1..]]] else before;
    assert after.Keys == expected.Keys;
    forall t | t in after
      ensures after[t] == expected[t]
    {
      assert Selected(all, t, id) == Selected(rows, t, id) + (if r[0] == t && r[1] == id then [r[1..]] else []);
    }
  }

  /** A row whose tag is not a table name, such as the header, never enters the grouping. */
  lemma GroupedSkipsUntagged(a: seq<Row>, r: Row, b: seq<Row>, id: string)
    requires WellFormed(a) && WellFormed(b) && |r| >= 2 && !IsTable(r[0])
    ensures WellFormed(a + [r] + b) && WellFormed(a + b)
    ensures Grouped(a + [r] + b, id) == Grouped(a + b, id)
  {
    forall t | t in TableNames
      ensures Selected(a + [r] + b, t, id) == Selected(a + b, t, id)
    {
      SelectedAppend(a, [r], t, id);
      SelectedAppend(a + [r], b, t, id);
      SelectedAppend(a, b, t, id);
      assert Selected([r], t, id) == [] by {
        assert [r][..0] == [];
      }
    }
  }

  // ---------------------------------------------------------------------
  // Update rewrite (update_record)
  // ---------------------------------------------------------------------

  /** A row tagged `t` with column 1 equal to `id` becomes `[t] + updated`; any other row stays. */
  function RewriteRow(row: Row, t: string, id: string, updated: seq<string>): (r: Row)
    requires |row| >= 2
  {
    if row[0] == t && row[1] == id then [t] + updated else row
  }

  function Rewritten(rows: seq<Row>, t: string, id: string, updated: seq<string>): (r: seq<Row>)
    requires WellFormed(rows)
    ensures |r| == |rows|
    ensures |updated| >= 1 ==> WellFormed(r)
  {
    seq(|rows|, i requires 0 <= i < |rows| => RewriteRow(rows[i], t, id, updated))
  }

  /** Rewriting twice with the same values writes the same file as rewriting once. */
  lemma RewrittenIdempotent(rows: seq<Row>, t: string, id: string, updated: seq<string>)
    requires WellFormed(rows) && |updated| >= 1
    ensures Rewritten(Rewritten(rows, t, id, updated), t, id, updated) == Rewritten(rows, t, id, updated)
  {
    var once := Rewritten(rows, t, id, updated);
    forall i | 0 <= i < |rows|
      ensures RewriteRow(once[i], t, id, updated) == once[i]
    {
      if rows[i][0] == t && rows[i][1] == id {
        assert once[i] == [t] + updated;
      }
    }
  }

  /** A rewrite keeps every row's tag, so no table gains or loses rows. */
  lemma RewrittenKeepsTags(rows: seq<Row>, t: string, id: string, updated: seq<string>)
    requires WellFormed(rows) && |updated| >= 1
    ensures Tags(Rewritten(rows, t, id, updated)) == Tags(rows)
  {
  }

  /** A rewrite of table `t` leaves the data, and so the options, of every other table alone. */
  lemma {:induction false} RewrittenOtherTables(rows: seq<Row>, t: string, id: string, updated: seq<string>, k: string)
    requires WellFormed(rows) && |updated| >= 1 && k != t
    ensures TableData(Rewritten(rows, t, id, updated), k) == TableData(rows, k)
    ensures Options(Rewritten(rows, t, id, updated), k) == Options(rows, k)
  {
    if rows != [] {
      var n := |rows| - 1;
      var after := Rewritten(rows, t, id, updated);
      assert after[..n] == Rewritten(rows[..n], t, id, updated);
      RewrittenOtherTables(rows[..n], t, id, updated, k);
    }
  }

  /** A rewrite that would put back what is already there changes nothing. */
  lemma RewrittenUnchanged(rows: seq<Row>, t: string, id: string, updated: seq<string>)
    requires WellFormed(rows)
    requires forall i :: 0 <= i < |rows| && rows[i][0] == t && rows[i][1] == id ==> rows[i] == [t] + updated
    ensures Rewritten(rows, t, id, updated) == rows
  {
  }

  // ---------------------------------------------------------------------
  // Cascading delete (delete_member)
  // ---------------------------------------------------------------------

  /** The rows a delete of `id` keeps: column 1 differs from `id`, or the row is an Appointment. */
  predicate Keeps(row: Row, id: string)
    requires |row| >= 2
  {
    row[1] != id || row[0] == "Appointment"
  }

  function Survivors(rows: seq<Row>, id: string): (r: seq<Row>)
    requires WellFormed(rows)
    ensures WellFormed(r) && |r| <= |rows|
  {
    if rows == [] then []
    else
      var n := |rows| - 1;
      Survivors(rows[..n], id) + (if Keeps(rows[n], id) then [rows[n]] else [])
  }

  lemma {:induction false} SurvivorsMembership(rows: seq<Row>, id: string, r: Row)
    requires WellFormed(rows)
    ensures r in Survivors(rows, id) <==> r in rows && Keeps(r, id)
  {
    if rows != [] {
      var n := |rows| - 1;
      SurvivorsMembership(rows[..n], id, r);
      assert rows == rows[..n] + [rows[n]];
    }
  }

  lemma {:induction false} SurvivorsAppend(a: seq<Row>, b: seq<Row>, id: string)
    requires WellFormed(a) && WellFormed(b)
    ensures WellFormed(a + b)
    ensures Survivors(a + b, id) == Survivors(a, id) + Survivors(b, id)
  {
    if b == [] {
      assert a + b == a;
    } else {
      var n := |b| - 1;
      var last := if Keeps(b[n], id) then [b[n]] else [];
      assert (a + b)[..|a| + n] == a + b[..n];
      assert (a + b)[|a| + n] == b[n];
      SurvivorsAppend(a, b[..n], id);
      assert Survivors(a + b, id) == Survivors(a + b[..n], id) + last;
      assert Survivors(b, id) == Survivors(b[..n], id) + last;
    }
  }

  /** Deleting twice removes nothing more than deleting once. */
  lemma {:induction false} SurvivorsIdempotent(rows: seq<Row>, id: string)
    requires WellFormed(rows)
    ensures Survivors(Survivors(rows, id), id) == Survivors(rows, id)
  {
    if rows != [] {
      var n := |rows| - 1;
      SurvivorsIdempotent(rows[..n], id);
      var once := Survivors(rows[..n], id);
      var last := if Keeps(rows[n], id) then [rows[n]] else [];
      SurvivorsAppend(once, last, id);
      if last != [] {
        assert last[..0] == [];
      }
    }
  }

  /** After a delete no row but an Appointment has `id` in column 1. */
  lemma NoRowLeftForId(rows: seq<Row>, id: string)
    requires WellFormed(rows)
    ensures forall r :: r in Survivors(rows, id) && r[0] != "Appointment" ==> r[1] != id
  {
    forall r | r in Survivors(rows, id)
      ensures r[0] != "Appointment" ==> r[1] != id
    {
      SurvivorsMembership(rows, id, r);
    }
  }

  /** Every Appointment row survives a delete. */
  lemma AppointmentsSurvive(rows: seq<Row>, id: string)
    requires WellFormed(rows)
    ensures forall r :: r in rows && r[0] == "Appointment" ==> r in Survivors(rows, id)
  {
    forall r | r in rows && r[0] == "Appointment"
      ensures r in Survivors(rows, id)
    {
      SurvivorsMembership(rows, id, r);
    }
  }

  /** The header is kept, in first place, unless the id deleted is the word Field. */
  lemma HeaderSurvives(rows: seq<Row>, id: string)
    requires WellFormed(rows) && rows != [] && rows[0] == Header
    ensures id != "Field" ==> Survivors(rows, id) != [] && Survivors(rows, id)[0] == Header
    ensures id == "Field" ==> Header !in Survivors(rows, id)
  {
    HeaderShape();
    SurvivorsMembership(rows, id, Header);
    SurvivorsAppend([Header], rows[1..], id);
    assert rows == [Header] + rows[1..];
    assert [Header][..0] == [];
  }

  /** After deleting `id`, the grouping for `id` holds Appointment rows only. */
  lemma GroupedAfterDelete(rows: seq<Row>, id: string, t: string)
    requires WellFormed(rows) && t != "Appointment"
    ensures Selected(Survivors(rows, id), t, id) == []
  {
    var after := Survivors(rows, id);
    if Selected(after, t, id) != [] {
      var e := Selected(after, t, id)[0];
      SelectedMembership(after, t, id, e);
      NoRowLeftForId(rows, id);
      assert false;
    }
  }

  // ---------------------------------------------------------------------
  // Member summary sheet (create_final_sheet) and chart rows
  // ---------------------------------------------------------------------

  /** Python's `e[:n]`. */
  function Truncate(e: Row, n: nat): (r: Row)
    ensures |r| == if |e| <= n then |e| else n
    ensures r == e[..|r|]
  {
    if |e| <= n then e else e[..n]
  }

  /**
   * The member summary: the first row is skipped as a header, and the first
   * ten cells of each following Member row's data are listed in file order.
   * None where the file is empty and skipping the header raises.
   */
  function MemberSheet(rows: seq<Row>): Option<seq<Row>>
    requires WellFormed(rows)
  {
    if rows == [] then None
    else
      var members := TableData(rows[1..], "Member");
      Some(seq(|members|, j requires 0 <= j < |members| => Truncate(members[j], FieldColumns)))
  }

  /**
   * One summary line per Member row after the first row, each a prefix of at
   * most ten cells of that row's data, and every such row has its line.
   */
  lemma MemberSheetContents(rows: seq<Row>)
    requires WellFormed(rows) && rows != []
    ensures MemberSheet(rows).Some?
    ensures |MemberSheet(rows).value| == multiset(Tags(rows[1..]))["Member"]
    ensures forall j :: 0 <= j < |MemberSheet(rows).value| ==>
      exists i :: (1 <= i < |rows| && rows[i][0] == "Member" &&
        MemberSheet(rows).value[j] == Truncate(rows[i][1..], FieldColumns))
    ensures forall i :: 1 <= i < |rows| && rows[i][0] == "Member" ==>
      Truncate(rows[i][1..], FieldColumns) in MemberSheet(rows).value
  {
    var members := TableData(rows[1..], "Member");
    var sheet := MemberSheet(rows).value;
    TableDataCount(rows[1..], "Member");
    forall j | 0 <= j < |members|
      ensures exists i :: (1 <= i < |rows| && rows[i][0] == "Member" &&
        sheet[j] == Truncate(rows[i][1..], FieldColumns))
    {
      TableDataMembership(rows[1..], "Member", members[j]);
      var i :| 0 <= i < |rows[1..]| && rows[1..][i][0] == "Member" && rows[1..][i][1..] == members[j];
      assert rows[1..][i] == rows[i + 1];
    }
    forall i | 1 <= i < |rows| && rows[i][0] == "Member"
      ensures Truncate(rows[i][1..], FieldColumns) in sheet
    {
      assert rows[1..][i - 1] == rows[i];
      TableDataMembership(rows[1..], "Member", rows[i][1..]);
      var j :| 0 <= j < |members| && members[j] == rows[i][1..];
      assert sheet[j] == Truncate(members[j], FieldColumns);
    }
  }

  /** A row appended to a non-empty file adds its line last when it is a Member row, and nothing otherwise. */
  lemma MemberSheetSnoc(rows: seq<Row>, r: Row)
    requires WellFormed(rows) && rows != [] && |r| >= 2
    ensures WellFormed(rows + [r])
    ensures MemberSheet(rows + [r]).value ==
      MemberSheet(rows).value + (if r[0] == "Member" then [Truncate(r[1..], FieldColumns)] else [])
  {
    var all := rows + [r];
    assert all[1..] == rows[1..] + [r];
    TableDataAppend(rows[1..], [r], "Member");
    assert [r][..0] == [];
    var before := TableData(rows[1..], "Member");
    var after := TableData(all[1..], "Member");
    var line := if r[0] == "Member" then [Truncate(r[1..], FieldColumns)] else [];
    assert after == before + (if r[0] == "Member" then [r[1..]] else []);
    assert MemberSheet(all).value == MemberSheet(rows).value + line by {
      assert |MemberSheet(all).value| == |MemberSheet(rows).value + line|;
      forall j | 0 <= j < |MemberSheet(all).value|
        ensures MemberSheet(all).value[j] == (MemberSheet(rows).value + line)[j]
      {
        if j < |before| {
          assert after[j] == before[j];
        }
      }
    }
  }

  /** Two members added to a fresh file are listed in the order they were added, each once. */
  lemma MemberSheetTwoMembers(a: string, b: string)
    ensures MemberSheet([Header, ["Member", a], ["Member", b]]) == Some([[a], [b]])
  {
    HeaderShape();
    var r0: seq<Row> := [Header];
    var r1: seq<Row> := r0 + [["Member", a]];
    var r2: seq<Row> := r1 + [["Member", b]];
    assert r2 == [Header, ["Member", a], ["Member", b]];
    assert r0[1..] == [];
    assert TableData(r0[1..], "Member") == [];
    var s0 := MemberSheet(r0).value;
    assert |s0| == 0;
    assert ["Member", a][1..] == [a] && ["Member", b][1..] == [b];
    assert Truncate([a], FieldColumns) == [a] && Truncate([b], FieldColumns) == [b];
    MemberSheetSnoc(r0, ["Member", a]);
    assert MemberSheet(r1).value == s0 + [[a]];
    MemberSheetSnoc(r1, ["Member", b]);
    assert MemberSheet(r2).value == s0 + [[a]] + [[b]];
    assert s0 + [[a]] + [[b]] == [[a], [b]];
  }

  /** With the header in first place the summary lists every Member row. */
  lemma MemberSheetAfterHeader(rows: seq<Row>)
    requires WellFormed(rows) && rows != [] && rows[0] == Header
    ensures TableData(rows[1..], "Member") == TableData(rows, "Member")
  {
    HeaderShape();
    assert rows == [Header] + rows[1..];
    TableDataAppend([Header], rows[1..], "Member");
    assert [Header][..0] == [];
  }

  /** With a Member row in first place (the header deleted) the summary leaves that member out. */
  lemma MemberSheetDropsFirstMember(rows: seq<Row>)
    requires WellFormed(rows) && rows != [] && rows[0][0] == "Member"
    ensures TableData(rows, "Member") == [rows[0][1..]] + TableData(rows[1..], "Member")
  {
    assert rows == [rows[0]] + rows[1..];
    TableDataAppend([rows[0]], rows[1..], "Member");
    assert [rows[0]][..0] == [];
  }

  /** The rows the join-date chart would plot. */
  datatype ChartRows = ChartAborted | NoMatchingMember | Bars(members: seq<Row>)

  /**
   * The row selection of the chart: the first row is skipped as a header, and
   * the Member data is filtered on its first cell when an id is given.
   */
  function ChartSelection(rows: seq<Row>, memberId: string): ChartRows
    requires WellFormed(rows)
  {
    if rows == [] then ChartAborted
    else
      var members := TableData(rows[1..], "Member");
      if memberId != "" then
        TableDataEntries(rows[1..], "Member");
        var chosen := KeyedBy(members, memberId);
        if chosen == [] then NoMatchingMember else Bars(chosen)
      else Bars(members)
  }

  /** With an id the chart plots exactly the grouping of Member rows for that id, and refuses when it is empty. */
  lemma ChartSelectionForId(rows: seq<Row>, memberId: string)
    requires WellFormed(rows) && rows != [] && memberId != ""
    ensures ChartSelection(rows, memberId) ==
      if Selected(rows[1..], "Member", memberId) == [] then NoMatchingMember
      else Bars(Selected(rows[1..], "Member", memberId))
  {
    SelectedIsKeyedTableData(rows[1..], "Member", memberId);
  }
}
