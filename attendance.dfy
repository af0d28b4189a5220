/**
 * The attendance view (show_attendance): the Attendance rows whose column 1
 * is the id asked for, keeping only the first row for each key. The program
 * calls the key its "date", but it reads row cell 3, which is Class_ID (the
 * row is tag, Attendance_ID, Member_ID, Class_ID, Date_Time, Attendance), and
 * takes its first whitespace-separated token.
 */
module Attendance {
  import opened Wrappers
  import opened Text
  import opened Records

  /** The key of a record (a row without its tag): the first token of Class_ID, record cell 2; None where the read raises. */
  function RecordKey(rec: Row): Option<string> {
    if |rec| < 3 then None else FirstToken(rec[2])
  }

  /** An Attendance row for `id`, by column 1. */
  predicate IsAttendanceOf(row: Row, id: string)
    requires |row| >= 2
  {
    row[0] == "Attendance" && row[1] == id
  }

  /** The records kept so far and the set of keys seen (the program's `attendance_dates`). */
  datatype Kept = Kept(records: seq<Row>, dates: set<string>)

  /** The de-duplicating loop run over `rows`; None where reading a matching row's key raises. */
  function Scan(rows: seq<Row>, id: string): Option<Kept>
    requires WellFormed(rows)
  {
    if rows == [] then Some(Kept([], {}))
    else
      var n := |rows| - 1;
      match Scan(rows[..n], id)
      case None => None
      case Some(k) =>
        if !IsAttendanceOf(rows[n], id) then Some(k)
        else match RecordKey(rows[n][1..])
          case None => None
          case Some(d) =>
            if d in k.dates then Some(k)
            else Some(Kept(k.records + [rows[n][1..]], k.dates + {d}))
  }

  /** Once a read has raised, the rest of the file does not matter. */
  lemma {:induction false} ScanFailureStays(rows: seq<Row>, id: string, k: nat)
    requires WellFormed(rows) && k <= |rows| && Scan(rows[..k], id).None?
    ensures Scan(rows, id).None?
    decreases |rows| - k
  {
    if k < |rows| {
      assert rows[..k + 1][..k] == rows[..k];
      ScanFailureStays(rows, id, k + 1);
    } else {
      assert rows[..k] == rows;
    }
  }

  /** What the view shows: a failed read, the "no attendance records" notice, or the kept records. */
  datatype AttendanceView = ReadFailed | NoRecords | Records(records: seq<Row>)

  function View(rows: seq<Row>, id: string): AttendanceView
    requires WellFormed(rows)
  {
    match Scan(rows, id)
    case None => ReadFailed
    case Some(k) => if k.records == [] then NoRecords else Records(k.records)
  }

  // ---------------------------------------------------------------------
  // A reference definition of the de-duplication, without the set
  // ---------------------------------------------------------------------

  ghost predicate AllKeyed(recs: seq<Row>) {
    forall j :: 0 <= j < |recs| ==> RecordKey(recs[j]).Some?
  }

  ghost function KeysOf(recs: seq<Row>): set<string> {
    set j | 0 <= j < |recs| && RecordKey(recs[j]).Some? :: RecordKey(recs[j]).value
  }

  /** Each record whose key no earlier record has, in order. */
  ghost function FirstOfEachKey(recs: seq<Row>): seq<Row> {
    if recs == [] then []
    else
      var n := |recs| - 1;
      FirstOfEachKey(recs[..n]) +
        (if exists j :: 0 <= j < n && RecordKey(recs[j]) == RecordKey(recs[n]) then [] else [recs[n]])
  }

  lemma KeysOfSnoc(recs: seq<Row>, rec: Row)
    requires RecordKey(rec).Some?
    ensures KeysOf(recs + [rec]) == KeysOf(recs) + {RecordKey(rec).value}
  {
    var all := recs + [rec];
    assert all[|recs|] == rec;
    assert forall j :: 0 <= j < |recs| ==> all[j] == recs[j];
  }

  lemma KeysOfMember(recs: seq<Row>, d: string)
    ensures d in KeysOf(recs) <==> exists j :: 0 <= j < |recs| && RecordKey(recs[j]) == Some(d)
  {
  }

  lemma AllKeyedSnoc(recs: seq<Row>, rec: Row)
    ensures AllKeyed(recs + [rec]) <==> AllKeyed(recs) && RecordKey(rec).Some?
  {
    var all := recs + [rec];
    assert all[|recs|] == rec;
    assert forall j :: 0 <= j < |recs| ==> all[j] == recs[j];
  }

  /** A record with a key not seen before is kept, after those kept so far. */
  lemma FirstOfEachKeySnocNew(recs: seq<Row>, rec: Row)
    requires forall j :: 0 <= j < |recs| ==> RecordKey(recs[j]) != RecordKey(rec)
    ensures FirstOfEachKey(recs + [rec]) == FirstOfEachKey(recs) + [rec]
  {
    var all := recs + [rec];
    var n := |recs|;
    assert all[..n] == recs && all[n] == rec;
    var key := RecordKey(rec);
    assert forall j :: 0 <= j < n ==> RecordKey(all[j]) != key by {
      forall j | 0 <= j < n
        ensures RecordKey(all[j]) != key
      {
        assert all[j] == recs[j];
      }
    }
    assert FirstOfEachKey(all) == FirstOfEachKey(recs) + [rec];
  }

  /** A record whose key was seen before is dropped. */
  lemma FirstOfEachKeySnocSeen(recs: seq<Row>, rec: Row, j: nat)
    requires j < |recs| && RecordKey(recs[j]) == RecordKey(rec)
    ensures FirstOfEachKey(recs + [rec]) == FirstOfEachKey(recs)
  {
    var all := recs + [rec];
    assert all[..|recs|] == recs;
    assert all[j] == recs[j];
  }

  /** One step of the loop: the state after a row, from the state before it. */
  lemma ScanSnoc(rows: seq<Row>, id: string)
    requires WellFormed(rows) && rows != []
    ensures var n := |rows| - 1;
      Selected(rows, "Attendance", id) ==
        Selected(rows[..n], "Attendance", id) + (if IsAttendanceOf(rows[n], id) then [rows[n][1..]] else [])
  {
  }

  /** One kept record more: a new key appends the record and the key, a seen key changes nothing. */
  lemma KeptStep(m: seq<Row>, rec: Row, k: Kept)
    requires k.records == FirstOfEachKey(m) && k.dates == KeysOf(m) && RecordKey(rec).Some?
    ensures var d := RecordKey(rec).value;
      var next := if d in k.dates then k else Kept(k.records + [rec], k.dates + {d});
      next.records == FirstOfEachKey(m + [rec]) && next.dates == KeysOf(m + [rec])
  {
    var d := RecordKey(rec).value;
    KeysOfSnoc(m, rec);
    KeysOfMember(m, d);
    if d in k.dates {
      var j :| 0 <= j < |m| && RecordKey(m[j]) == Some(d);
      FirstOfEachKeySnocSeen(m, rec, j);
    } else {
      FirstOfEachKeySnocNew(m, rec);
    }
  }

  /** The loop computes the reference de-duplication of the matching records, and fails exactly where a matching record has no key. */
  lemma {:induction false} ScanMeaning(rows: seq<Row>, id: string)
    requires WellFormed(rows)
    ensures Scan(rows, id).None? <==> !AllKeyed(Selected(rows, "Attendance", id))
    ensures Scan(rows, id).Some? ==>
      && Scan(rows, id).value.records == FirstOfEachKey(Selected(rows, "Attendance", id))
      && Scan(rows, id).value.dates == KeysOf(Selected(rows, "Attendance", id))
  {
    if rows != [] {
      var n := |rows| - 1;
      ScanMeaning(rows[..n], id);
      ScanSnoc(rows, id);
      var m := Selected(rows[..n], "Attendance", id);
      if IsAttendanceOf(rows[n], id) {
        var rec := rows[n][1..];
        AllKeyedSnoc(m, rec);
        if Scan(rows[..n], id).Some? && RecordKey(rec).Some? {
          KeptStep(m, rec, Scan(rows[..n], id).value);
        }
      } else {
        assert Scan(rows, id) == Scan(rows[..n], id);
        assert Selected(rows, "Attendance", id) == m;
      }
    }
  }

  lemma {:induction false} FirstOfEachKeyFrom(recs: seq<Row>, x: Row)
    requires x in FirstOfEachKey(recs)
    ensures exists i :: (0 <= i < |recs| && recs[i] == x &&
      forall j :: 0 <= j < i ==> RecordKey(recs[j]) != RecordKey(recs[i]))
  {
    var n := |recs| - 1;
    var init := recs[..n];
    if x in FirstOfEachKey(init) {
      FirstOfEachKeyFrom(init, x);
      var i :| 0 <= i < |init| && init[i] == x &&
        forall j :: 0 <= j < i ==> RecordKey(init[j]) != RecordKey(init[i]);
      assert forall j :: 0 <= j <= i ==> init[j] == recs[j];
    } else {
      assert x == recs[n];
    }
  }

  /** No two kept records share a key. */
  lemma {:induction false} FirstOfEachKeyDistinct(recs: seq<Row>)
    ensures forall a, b :: 0 <= a < b < |FirstOfEachKey(recs)| ==>
      RecordKey(FirstOfEachKey(recs)[a]) != RecordKey(FirstOfEachKey(recs)[b])
  {
    if recs != [] {
      var n := |recs| - 1;
      var init := recs[..n];
      FirstOfEachKeyDistinct(init);
      var f := FirstOfEachKey(recs);
      var p := FirstOfEachKey(init);
      if |f| > |p| {
        assert f == p + [recs[n]];
        forall a | 0 <= a < |p|
          ensures RecordKey(p[a]) != RecordKey(recs[n])
        {
          assert p[a] in p;
          FirstOfEachKeyFrom(init, p[a]);
          var i :| 0 <= i < |init| && init[i] == p[a] &&
            forall j :: 0 <= j < i ==> RecordKey(init[j]) != RecordKey(init[i]);
          assert recs[i] == p[a];
        }
      }
    }
  }

  lemma FirstOfEachKeyPrefix(recs: seq<Row>)
    requires recs != []
    ensures var p := FirstOfEachKey(recs[..|recs| - 1]);
      |p| <= |FirstOfEachKey(recs)| && FirstOfEachKey(recs)[..|p|] == p
  {
  }

  /** The key of record `j` is the key of some kept record. */
  lemma {:induction false} FirstOfEachKeyCovers(recs: seq<Row>, j: nat)
    requires j < |recs|
    ensures exists a :: 0 <= a < |FirstOfEachKey(recs)| && RecordKey(FirstOfEachKey(recs)[a]) == RecordKey(recs[j])
    decreases |recs|, 1
  {
    var n := |recs| - 1;
    if j < n {
      CoversEarlier(recs, j, j);
    } else if i :| 0 <= i < n && RecordKey(recs[i]) == RecordKey(recs[n]) {
      CoversEarlier(recs, i, j);
    } else {
      KeptLast(recs);
    }
  }

  /** The last record is kept, last, when no earlier record has its key. */
  lemma KeptLast(recs: seq<Row>)
    requires recs != []
    requires forall i :: 0 <= i < |recs| - 1 ==> RecordKey(recs[i]) != RecordKey(recs[|recs| - 1])
    ensures var p := FirstOfEachKey(recs[..|recs| - 1]);
      |p| < |FirstOfEachKey(recs)| && FirstOfEachKey(recs)[|p|] == recs[|recs| - 1]
  {
    var n := |recs| - 1;
    var init := recs[..n];
    assert recs == init + [recs[n]];
    forall i | 0 <= i < |init|
      ensures RecordKey(init[i]) != RecordKey(recs[n])
    {
      assert init[i] == recs[i];
    }
    FirstOfEachKeySnocNew(init, recs[n]);
  }

  /** A key seen at `i` before the last record is covered by a kept record of the prefix. */
  lemma {:induction false} CoversEarlier(recs: seq<Row>, i: nat, j: nat)
    requires i < |recs| - 1 && j < |recs| && RecordKey(recs[i]) == RecordKey(recs[j])
    ensures exists a :: 0 <= a < |FirstOfEachKey(recs)| && RecordKey(FirstOfEachKey(recs)[a]) == RecordKey(recs[j])
    decreases |recs|, 0
  {
    var init := recs[..|recs| - 1];
    FirstOfEachKeyCovers(init, i);
    var a :| 0 <= a < |FirstOfEachKey(init)| && RecordKey(FirstOfEachKey(init)[a]) == RecordKey(init[i]);
    KeptInPrefix(recs, a);
    assert init[i] == recs[i];
  }

  /** A record kept from all but the last record stays kept, at the same place. */
  lemma KeptInPrefix(recs: seq<Row>, a: nat)
    requires recs != [] && a < |FirstOfEachKey(recs[..|recs| - 1])|
    ensures a < |FirstOfEachKey(recs)| && FirstOfEachKey(recs)[a] == FirstOfEachKey(recs[..|recs| - 1])[a]
  {
    FirstOfEachKeyPrefix(recs);
    var f := FirstOfEachKey(recs);
    assert f[a] == f[..|FirstOfEachKey(recs[..|recs| - 1])|][a];
  }

  /**
   * What the view shows: it fails exactly when a matching row has no key;
   * otherwise it holds, in file order, the first matching record of each
   * key, no two with the same key, and covers every key, and the notice
   * appears exactly when no row matches.
   */
  lemma ViewMeaning(rows: seq<Row>, id: string)
    requires WellFormed(rows)
    ensures View(rows, id) == ReadFailed <==> !AllKeyed(Selected(rows, "Attendance", id))
    ensures View(rows, id) == NoRecords <==>
      AllKeyed(Selected(rows, "Attendance", id)) && Selected(rows, "Attendance", id) == []
    ensures View(rows, id).Records? ==>
      var recs := View(rows, id).records;
      && recs == FirstOfEachKey(Selected(rows, "Attendance", id))
      && (forall a, b :: 0 <= a < b < |recs| ==> RecordKey(recs[a]) != RecordKey(recs[b]))
      && (forall r :: r in recs ==> exists i :: 0 <= i < |rows| && IsAttendanceOf(rows[i], id) && rows[i][1..] == r)
      && (forall r :: r in Selected(rows, "Attendance", id) ==> exists a :: 0 <= a < |recs| && RecordKey(recs[a]) == RecordKey(r))
  {
    ScanMeaning(rows, id);
    var sel := Selected(rows, "Attendance", id);
    FirstOfEachKeyDistinct(sel);
    forall r | r in sel
      ensures exists a :: 0 <= a < |FirstOfEachKey(sel)| && RecordKey(FirstOfEachKey(sel)[a]) == RecordKey(r)
    {
      var j :| 0 <= j < |sel| && sel[j] == r;
      FirstOfEachKeyCovers(sel, j);
    }
    forall r | r in FirstOfEachKey(sel)
      ensures exists i :: 0 <= i < |rows| && IsAttendanceOf(rows[i], id) && rows[i][1..] == r
    {
      FirstOfEachKeyFrom(sel, r);
      SelectedMembership(rows, "Attendance", id, r);
    }
  }

  /**
   * Two visits to the same class at different times show only the first:
   * the key is Class_ID, not the time. (Column 1, the Attendance_ID slot,
   * is what the view compares with the id asked for.)
   */
  lemma SameClassShownOnce(id: string, m: string, t1: string, t2: string)
    ensures View([["Attendance", id, m, "C1", t1, "Present"], ["Attendance", id, m, "C1", t2, "Present"]], id)
      == Records([[id, m, "C1", t1, "Present"]])
  {
    var r1: Row := ["Attendance", id, m, "C1", t1, "Present"];
    var r2: Row := ["Attendance", id, m, "C1", t2, "Present"];
    var rows := [r1, r2];
    OnlyToken();
    assert r1[1..] == [id, m, "C1", t1, "Present"];
    assert r1[1..][2] == "C1" && r2[1..][2] == "C1";
    assert IsAttendanceOf(r1, id) && IsAttendanceOf(r2, id);
    assert RecordKey(r1[1..]) == Some("C1") && RecordKey(r2[1..]) == Some("C1");
    var one := rows[..1];
    assert one == [r1] && one[..0] == [] && one[0] == r1;
    assert Scan(one[..0], id) == Some(Kept([], {}));
    assert [] + [r1[1..]] == [r1[1..]] && {} + {"C1"} == {"C1"};
    assert Scan(one, id) == Some(Kept([r1[1..]], {"C1"}));
    assert rows[1] == r2;
    assert Scan(rows, id) == Some(Kept([r1[1..]], {"C1"}));
  }

  /** `"C1".split()[0]` is `"C1"`. */
  lemma OnlyToken()
    ensures FirstToken("C1") == Some("C1")
  {
    var s := "C1";
    assert s[0] == 'C' && s[1] == '1' && !IsSpace('C') && !IsSpace('1');
    assert s[1..] == "1" && s[1..][1..] == "";
    assert TokenLength(s[1..]) == 1;
    assert LeadingSpaces(s) == 0 && TokenLength(s) == 2;
    assert s[0..2] == s;
  }

  /** A Class_ID of blanks passes the add's empty-field check but makes the view raise at `split()[0]`. */
  lemma BlankClassIdFailsView(id: string, m: string, rest: seq<string>)
    ensures View([["Attendance", id, m, " "] + rest], id) == ReadFailed
  {
    var r: Row := ["Attendance", id, m, " "] + rest;
    assert r[0] == "Attendance" && r[1] == id && r[3] == " ";
    assert r[1..][2] == r[3];
    assert " "[0] == ' ' && IsSpace(' ');
    assert FirstToken(" ") == None;
    assert [r][..0] == [];
  }
}
