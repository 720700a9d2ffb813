/**
 * The read side: the appointments table (its rows and their search), the patients
 * table search, the doctor and time-slot selection lists, the dashboard counts and
 * the CSV cells of the export.
 */
module Views {
  import opened Wrappers
  import opened Text
  import opened Seqs
  import opened Dates
  import opened Records
  import opened Storage

  function PatientKey(p: Patient): string { p.id }
  function DoctorKey(d: Doctor): string { d.id }
  function DepartmentKey(d: Department): string { d.id }

  /** The name of the first patient with that id, or `fallback` when none has it. */
  function PatientName(patients: seq<Patient>, id: string, fallback: string): (r: string)
    ensures (forall j :: 0 <= j < |patients| ==> patients[j].id != id) ==> r == fallback
    ensures (exists j :: 0 <= j < |patients| && patients[j].id == id) ==>
      exists j :: 0 <= j < |patients| && patients[j].id == id && r == patients[j].name
                  && forall k :: 0 <= k < j ==> patients[k].id != id
  {
    match ById(patients, id, PatientKey)
    case None => fallback
    case Some(p) => p.name
  }

  /** The name of the first doctor with that id, or `fallback`. */
  function DoctorName(doctors: seq<Doctor>, id: string, fallback: string): (r: string)
    ensures (forall j :: 0 <= j < |doctors| ==> doctors[j].id != id) ==> r == fallback
    ensures (exists j :: 0 <= j < |doctors| && doctors[j].id == id) ==>
      exists j :: 0 <= j < |doctors| && doctors[j].id == id && r == doctors[j].name
                  && forall k :: 0 <= k < j ==> doctors[k].id != id
  {
    match ById(doctors, id, DoctorKey)
    case None => fallback
    case Some(d) => d.name
  }

  /** The name of the first department with that id, or `fallback`. */
  function DepartmentName(departments: seq<Department>, id: string, fallback: string): (r: string)
    ensures (forall j :: 0 <= j < |departments| ==> departments[j].id != id) ==> r == fallback
    ensures (exists j :: 0 <= j < |departments| && departments[j].id == id) ==>
      exists j :: 0 <= j < |departments| && departments[j].id == id && r == departments[j].name
                  && forall k :: 0 <= k < j ==> departments[k].id != id
  {
    match ById(departments, id, DepartmentKey)
    case None => fallback
    case Some(d) => d.name
  }

  /** One row of the appointments table. */
  datatype Row = Row(
    num: nat, patient: string, department: string, doctor: string,
    date: string, time: string, id: string, status: Status)

  /** The three collections the rows are joined against. */
  datatype Directory = Directory(patients: seq<Patient>, doctors: seq<Doctor>, departments: seq<Department>)

  function ProjectRow(a: Appointment, i: nat, dir: Directory, today: Date): Row
  {
    Row(i + 1, PatientName(dir.patients, a.patientId, "Unknown"),
        DepartmentName(dir.departments, a.departmentId, "Unknown"),
        DoctorName(dir.doctors, a.doctorId, "Unknown"), a.date, a.time, a.id, ApptStatus(a.date, today))
  }

  /**
   * `appts.map((a, i) => ...)`: one row per appointment, numbered from 1, carrying its
   * date, time, id and status, with "Unknown" for a reference nothing resolves.
   */
  function ProjectRows(appts: seq<Appointment>, dir: Directory, today: Date): (rows: seq<Row>)
    ensures |rows| == |appts|
    ensures forall i :: 0 <= i < |appts| ==>
      rows[i].num == i + 1 && rows[i].date == appts[i].date && rows[i].time == appts[i].time
      && rows[i].id == appts[i].id && rows[i].status == ApptStatus(appts[i].date, today)
    ensures forall i ::
              0 <= i < |appts| && (forall j :: 0 <= j < |dir.patients| ==> dir.patients[j].id != appts[i].patientId)
              ==> rows[i].patient == "Unknown"
    ensures forall i ::
              0 <= i < |appts| && (forall j :: 0 <= j < |dir.doctors| ==> dir.doctors[j].id != appts[i].doctorId)
              ==> rows[i].doctor == "Unknown"
    ensures forall i ::
              0 <= i < |appts|
              && (forall j :: 0 <= j < |dir.departments| ==> dir.departments[j].id != appts[i].departmentId)
              ==> rows[i].department == "Unknown"
    ensures forall i :: 0 <= i < |appts| ==>
      && rows[i].patient == PatientName(dir.patients, appts[i].patientId, "Unknown")
      && rows[i].department == DepartmentName(dir.departments, appts[i].departmentId, "Unknown")
      && rows[i].doctor == DoctorName(dir.doctors, appts[i].doctorId, "Unknown")
  {
    seq(|appts|, i requires 0 <= i < |appts| => ProjectRow(appts[i], i, dir, today))
  }

  /** The search test: the patient, department or doctor name lower-cased, or the date as is. */
  predicate MatchesQuery(r: Row, search: string)
  {
    Contains(Lower(r.patient), search) || Contains(Lower(r.department), search)
    || Contains(Lower(r.doctor), search) || Contains(r.date, search)
  }

  /** `rows.filter(...)` with the lower-cased search text. */
  function SearchRows(rows: seq<Row>, filterText: string): (r: seq<Row>)
    ensures forall x :: multiset(r)[x] == if MatchesQuery(x, Lower(filterText)) then multiset(rows)[x] else 0
    ensures IsSubsequence(r, rows)
  {
    Filter(rows, (x: Row) => MatchesQuery(x, Lower(filterText)))
  }

  /** A row is shown exactly when it is in the table and matches the query. */
  lemma SearchKeepsExactlyMatches(rows: seq<Row>, filterText: string, x: Row)
    ensures x in SearchRows(rows, filterText) <==> x in rows && MatchesQuery(x, Lower(filterText))
  {
    var r := SearchRows(rows, filterText);
    assert x in r <==> multiset(r)[x] > 0;
    assert x in rows <==> multiset(rows)[x] > 0;
  }

  /** The empty query shows every row, in order. */
  lemma EmptySearchKeepsAll(rows: seq<Row>)
    ensures SearchRows(rows, "") == rows
  {
    var keep := (x: Row) => MatchesQuery(x, Lower(""));
    forall i | 0 <= i < |rows| ensures keep(rows[i]) {
      ContainsEmpty(Lower(rows[i].patient));
    }
    FilterKeepsAll(rows, keep);
  }

  /** `${p.name} ${p.contact} ${p.email} ${p.address}`, lower-cased. */
  function PatientBlob(p: Patient): string
  {
    Lower(p.name + " " + p.contact + " " + p.email + " " + p.address)
  }

  /** The patients table's filter: the blob includes the trimmed, lower-cased query. */
  function SearchPatients(patients: seq<Patient>, filterText: string): (r: seq<Patient>)
    ensures forall p ::
              multiset(r)[p] == if Contains(PatientBlob(p), Lower(Trim(filterText))) then multiset(patients)[p] else 0
    ensures IsSubsequence(r, patients)
  {
    Filter(patients, (p: Patient) => Contains(PatientBlob(p), Lower(Trim(filterText))))
  }

  /** A query of white space only lists every patient, in order. */
  lemma BlankPatientSearchKeepsAll(patients: seq<Patient>, filterText: string)
    requires forall k :: 0 <= k < |filterText| ==> IsWhitespace(filterText[k])
    ensures SearchPatients(patients, filterText) == patients
  {
    TrimEmpty(filterText);
    assert Lower(Trim(filterText)) == "";
    var keep := (p: Patient) => Contains(PatientBlob(p), Lower(Trim(filterText)));
    forall i | 0 <= i < |patients| ensures keep(patients[i]) {
      ContainsEmpty(PatientBlob(patients[i]));
    }
    FilterKeepsAll(patients, keep);
  }

  /** Lower-casing distributes over concatenation. */
  lemma LowerConcat(a: string, b: string)
    ensures Lower(a + b) == Lower(a) + Lower(b)
  {
    var l := Lower(a + b);
    assert forall k :: 0 <= k < |a| ==> l[k] == LowerChar(a[k]);
    assert forall k :: |a| <= k < |a| + |b| ==> l[k] == LowerChar(b[k - |a|]);
  }

  /** The blob starts with the lower-cased name. */
  lemma BlobStartsWithName(p: Patient)
    ensures |Lower(p.name)| <= |PatientBlob(p)| && PatientBlob(p)[..|p.name|] == Lower(p.name)
  {
    var rest := " " + p.contact + " " + p.email + " " + p.address;
    assert p.name + " " + p.contact + " " + p.email + " " + p.address == p.name + rest;
    LowerConcat(p.name, rest);
  }

  /** An occurrence in a prefix is an occurrence in the whole string. */
  lemma OccursInPrefix(pre: string, hay: string, needle: string, i: int)
    requires |pre| <= |hay| && hay[..|pre|] == pre && OccursAt(pre, needle, i)
    ensures OccursAt(hay, needle, i)
  {
    assert hay[i..i + |needle|] == hay[..|pre|][i..i + |needle|];
  }

  /** A patient whose lower-cased name includes the query is listed. */
  lemma FoundByName(patients: seq<Patient>, filterText: string, p: Patient)
    requires p in patients
    requires Contains(Lower(p.name), Lower(Trim(filterText)))
    ensures p in SearchPatients(patients, filterText)
  {
    var q := Lower(Trim(filterText));
    var i :| OccursAt(Lower(p.name), q, i);
    BlobStartsWithName(p);
    OccursInPrefix(Lower(p.name), PatientBlob(p), q, i);
    assert Contains(PatientBlob(p), q);
    var r := SearchPatients(patients, filterText);
    assert multiset(patients)[p] > 0;
    assert multiset(r)[p] > 0;
  }

  /** `fillDoctors`: the doctors of that department, in stored order. */
  function DoctorsInDepartment(doctors: seq<Doctor>, departmentId: string): (r: seq<Doctor>)
    ensures forall d :: multiset(r)[d] == if d.departmentId == departmentId then multiset(doctors)[d] else 0
    ensures IsSubsequence(r, doctors)
  {
    Filter(doctors, (d: Doctor) => d.departmentId == departmentId)
  }

  /** `fillTimeSlots`: the slots of the first doctor with that id, none when there is no such doctor. */
  function SlotsForDoctor(doctors: seq<Doctor>, doctorId: string): (r: seq<string>)
    ensures (forall j :: 0 <= j < |doctors| ==> doctors[j].id != doctorId) ==> r == []
    ensures (exists j :: 0 <= j < |doctors| && doctors[j].id == doctorId) ==>
      exists j :: 0 <= j < |doctors| && doctors[j].id == doctorId && r == doctors[j].slots
                  && forall k :: 0 <= k < j ==> doctors[k].id != doctorId
  {
    match ById(doctors, doctorId, DoctorKey)
    case None => []
    case Some(d) => d.slots
  }

  /** `appts.filter(a => a.date === todayStr).length`. */
  function TodayCount(appts: seq<Appointment>, today: Date): nat
    requires Valid(today)
  {
    |Filter(appts, (a: Appointment) => a.date == FormatIso(today))|
  }

  /** `appts.filter(a => a.date > todayStr).length`: the ISO string comparison. */
  function UpcomingCount(appts: seq<Appointment>, today: Date): nat
    requires Valid(today)
  {
    |Filter(appts, (a: Appointment) => StrLess(FormatIso(today), a.date))|
  }

  /** The dashboard never counts more appointments for today and later than it holds. */
  lemma CountsBounded(appts: seq<Appointment>, today: Date)
    requires Valid(today)
    ensures TodayCount(appts, today) + UpcomingCount(appts, today) <= |appts|
  {
    var t := FormatIso(today);
    var p := (a: Appointment) => a.date == t;
    var q := (a: Appointment) => StrLess(t, a.date);
    forall a: Appointment | p(a) ensures !q(a) {
      StrLessIrreflexive(t);
    }
    DisjointFiltersBounded(appts, p, q);
  }

  /**
   * For well-formed dates the dashboard's string comparisons count exactly the
   * appointments whose status badge reads "Today" and "Upcoming".
   */
  lemma CountsMatchStatus(appts: seq<Appointment>, today: Date)
    requires Valid(today)
    requires forall i :: 0 <= i < |appts| ==> ParseIso(appts[i].date).Some?
    ensures TodayCount(appts, today) == |Filter(appts, (a: Appointment) => ApptStatus(a.date, today) == Today)|
    ensures UpcomingCount(appts, today) == |Filter(appts, (a: Appointment) => ApptStatus(a.date, today) == Upcoming)|
  {
    var t := FormatIso(today);
    forall i | 0 <= i < |appts| ensures
      (appts[i].date == t <==> ApptStatus(appts[i].date, today) == Today)
      && (StrLess(t, appts[i].date) <==> ApptStatus(appts[i].date, today) == Upcoming)
    {
      StringCompareMatchesStatus(appts[i].date, today);
    }
    FilterCongruent(appts, (a: Appointment) => a.date == t, (a: Appointment) => ApptStatus(a.date, today) == Today);
    FilterCongruent(appts, (a: Appointment) => StrLess(t, a.date),
                    (a: Appointment) => ApptStatus(a.date, today) == Upcoming);
  }

  /** Every `"` doubled: `.replace(/"/g, '""')`. */
  function Escape(s: string): (r: string)
    ensures |r| >= |s|
  {
    if s == [] then []
    else (if s[0] == '"' then "\"\"" else [s[0]]) + Escape(s[1..])
  }

  /** `"${...}"`: the escaped text between quotes. */
  function QuoteCell(s: string): (r: string)
    ensures |r| >= 2 && r[0] == '"' && r[|r| - 1] == '"'
  {
    "\"" + Escape(s) + "\""
  }

  /** Reading escaped text back: `""` is one quote, a lone quote is malformed. */
  function Unescape(t: string): Option<string>
  {
    if t == [] then Some([])
    else if t[0] != '"' then
      match Unescape(t[1..])
      case None => None
      case Some(rest) => Some([t[0]] + rest)
    else if |t| >= 2 && t[1] == '"' then
      match Unescape(t[2..])
      case None => None
      case Some(rest) => Some("\"" + rest)
    else None
  }

  /** Reading a cell back: the text between the outer quotes, unescaped. */
  function UnquoteCell(c: string): Option<string>
  {
    if |c| >= 2 && c[0] == '"' && c[|c| - 1] == '"' then Unescape(c[1..|c| - 1]) else None
  }

  lemma {:induction false} UnescapeEscape(s: string)
    ensures Unescape(Escape(s)) == Some(s)
  {
    if s != [] {
      UnescapeEscape(s[1..]);
      var e := Escape(s);
      if s[0] == '"' {
        assert e[2..] == Escape(s[1..]);
      } else {
        assert e[1..] == Escape(s[1..]);
      }
      assert s == [s[0]] + s[1..];
    }
  }

  /** Every quoted cell reads back as the text it was made from. */
  lemma UnquoteQuote(s: string)
    ensures UnquoteCell(QuoteCell(s)) == Some(s)
  {
    var c := QuoteCell(s);
    assert c[1..|c| - 1] == Escape(s);
    UnescapeEscape(s);
  }

  function StatusText(s: Status): string
  {
    match s
    case Today => "Today"
    case Upcoming => "Upcoming"
    case Completed => "Completed"
  }

  /** The header line's fields, in the order of the record the export builds. */
  const Headers: seq<string> := ["AppointmentID", "Patient", "Contact", "Department", "Doctor", "Date", "Time", "Status"]

  /** The contact of the first patient with that id, or "". */
  function PatientContact(patients: seq<Patient>, id: string): (r: string)
    ensures (forall j :: 0 <= j < |patients| ==> patients[j].id != id) ==> r == ""
    ensures (exists j :: 0 <= j < |patients| && patients[j].id == id) ==>
      exists j :: 0 <= j < |patients| && patients[j].id == id && r == patients[j].contact
                  && forall k :: 0 <= k < j ==> patients[k].id != id
  {
    match ById(patients, id, PatientKey)
    case None => ""
    case Some(p) => p.contact
  }

  /** The values of one exported record, in header order; an unresolved reference is "". */
  function ExportRecord(a: Appointment, dir: Directory, today: Date): (r: seq<string>)
    ensures |r| == |Headers|
    ensures r[0] == a.id && r[5] == a.date && r[6] == a.time && r[7] == StatusText(ApptStatus(a.date, today))
    ensures (forall j :: 0 <= j < |dir.patients| ==> dir.patients[j].id != a.patientId) ==> r[1] == "" && r[2] == ""
    ensures (forall j :: 0 <= j < |dir.departments| ==> dir.departments[j].id != a.departmentId) ==> r[3] == ""
    ensures (forall j :: 0 <= j < |dir.doctors| ==> dir.doctors[j].id != a.doctorId) ==> r[4] == ""
    ensures r[1] == PatientName(dir.patients, a.patientId, "") && r[2] == PatientContact(dir.patients, a.patientId)
    ensures r[3] == DepartmentName(dir.departments, a.departmentId, "")
    ensures r[4] == DoctorName(dir.doctors, a.doctorId, "")
  {
    [a.id, PatientName(dir.patients, a.patientId, ""), PatientContact(dir.patients, a.patientId),
     DepartmentName(dir.departments, a.departmentId, ""), DoctorName(dir.doctors, a.doctorId, ""),
     a.date, a.time, StatusText(ApptStatus(a.date, today))]
  }

  /**
   * Where the patient, department and doctor resolve, the export holds the same
   * names as the appointments table; only the fallback for a missing one differs.
   */
  lemma ExportAgreesWithTable(a: Appointment, i: nat, dir: Directory, today: Date)
    requires exists j :: 0 <= j < |dir.patients| && dir.patients[j].id == a.patientId
    requires exists j :: 0 <= j < |dir.departments| && dir.departments[j].id == a.departmentId
    requires exists j :: 0 <= j < |dir.doctors| && dir.doctors[j].id == a.doctorId
    ensures var r, row := ExportRecord(a, dir, today), ProjectRow(a, i, dir, today);
      r[1] == row.patient && r[3] == row.department && r[4] == row.doctor && r[0] == row.id
  {
    var row := ProjectRow(a, i, dir, today);
    var j1 :| 0 <= j1 < |dir.patients| && dir.patients[j1].id == a.patientId
              && PatientName(dir.patients, a.patientId, "") == dir.patients[j1].name
              && forall k :: 0 <= k < j1 ==> dir.patients[k].id != a.patientId;
    var j2 :| 0 <= j2 < |dir.patients| && dir.patients[j2].id == a.patientId
              && row.patient == dir.patients[j2].name
              && forall k :: 0 <= k < j2 ==> dir.patients[k].id != a.patientId;
    assert j1 == j2;
    var d1 :| 0 <= d1 < |dir.departments| && dir.departments[d1].id == a.departmentId
              && DepartmentName(dir.departments, a.departmentId, "") == dir.departments[d1].name
              && forall k :: 0 <= k < d1 ==> dir.departments[k].id != a.departmentId;
    var d2 :| 0 <= d2 < |dir.departments| && dir.departments[d2].id == a.departmentId
              && row.department == dir.departments[d2].name
              && forall k :: 0 <= k < d2 ==> dir.departments[k].id != a.departmentId;
    assert d1 == d2;
    var m1 :| 0 <= m1 < |dir.doctors| && dir.doctors[m1].id == a.doctorId
              && DoctorName(dir.doctors, a.doctorId, "") == dir.doctors[m1].name
              && forall k :: 0 <= k < m1 ==> dir.doctors[k].id != a.doctorId;
    var m2 :| 0 <= m2 < |dir.doctors| && dir.doctors[m2].id == a.doctorId
              && row.doctor == dir.doctors[m2].name
              && forall k :: 0 <= k < m2 ==> dir.doctors[k].id != a.doctorId;
    assert m1 == m2;
  }

  /** The cells joined by commas. */
  function JoinCells(cells: seq<string>): string
  {
    if cells == [] then "" else if |cells| == 1 then cells[0] else cells[0] + "," + JoinCells(cells[1..])
  }

  /** Every cell quoted. */
  function QuoteAll(cells: seq<string>): (r: seq<string>)
    ensures |r| == |cells| && forall k :: 0 <= k < |cells| ==> r[k] == QuoteCell(cells[k])
  {
    if cells == [] then [] else [QuoteCell(cells[0])] + QuoteAll(cells[1..])
  }

  /** One data line: every value quoted, joined by commas. */
  function ExportLine(a: Appointment, dir: Directory, today: Date): string
  {
    JoinCells(QuoteAll(ExportRecord(a, dir, today)))
  }

  /**
   * A CSV reader for escaped text after an opening quote: `""` is one quote, a lone
   * quote closes the cell and what follows it is returned.
   */
  function ReadEscaped(t: string): (r: Option<(string, string)>)
    ensures r.Some? ==> |r.value.1| < |t|
  {
    if t == [] then None
    else if t[0] != '"' then
      match ReadEscaped(t[1..])
      case None => None
      case Some(p) => Some(([t[0]] + p.0, p.1))
    else if |t| >= 2 && t[1] == '"' then
      match ReadEscaped(t[2..])
      case None => None
      case Some(p) => Some(("\"" + p.0, p.1))
    else Some(([], t[1..]))
  }

  /** A CSV reader for a line of quoted cells separated by commas. */
  function ReadCells(line: string): Option<seq<string>>
    decreases |line|
  {
    if line == [] || line[0] != '"' then None
    else match ReadEscaped(line[1..])
      case None => None
      case Some(p) =>
        if p.1 == [] then Some([p.0])
        else if p.1[0] != ',' then None
        else match ReadCells(p.1[1..])
          case None => None
          case Some(cells) => Some([p.0] + cells)
  }

  /**
   * The reader takes back exactly the escaped text up to its closing quote, when
   * what follows that quote is not itself a quote.
   */
  lemma {:induction false} ReadEscapedEscape(s: string, tail: string)
    requires tail == [] || tail[0] != '"'
    ensures ReadEscaped(Escape(s) + "\"" + tail) == Some((s, tail))
  {
    var t := Escape(s) + "\"" + tail;
    if s == [] {
      assert t == "\"" + tail;
      assert t[1..] == tail;
    } else {
      ReadEscapedEscape(s[1..], tail);
      if s[0] == '"' {
        assert t == "\"\"" + (Escape(s[1..]) + "\"" + tail);
        assert t[2..] == Escape(s[1..]) + "\"" + tail;
      } else {
        assert t == [s[0]] + (Escape(s[1..]) + "\"" + tail);
        assert t[1..] == Escape(s[1..]) + "\"" + tail;
      }
      assert s == [s[0]] + s[1..];
    }
  }

  /** A joined line of quoted cells reads back as the cells. */
  lemma {:induction false} ReadCellsJoinQuoted(cells: seq<string>)
    requires cells != []
    ensures ReadCells(JoinCells(QuoteAll(cells))) == Some(cells)
  {
    var q := QuoteAll(cells);
    var line := JoinCells(q);
    if |cells| == 1 {
      assert line == QuoteCell(cells[0]);
      assert line == "\"" + (Escape(cells[0]) + "\"" + "");
      ReadEscapedEscape(cells[0], "");
      assert line[1..] == Escape(cells[0]) + "\"" + "";
      assert ReadEscaped(line[1..]) == Some((cells[0], ""));
      assert cells == [cells[0]];
    } else {
      var rest := JoinCells(QuoteAll(cells[1..]));
      assert q[1..] == QuoteAll(cells[1..]);
      assert line == "\"" + (Escape(cells[0]) + "\"" + ("," + rest));
      assert line[1..] == Escape(cells[0]) + "\"" + ("," + rest);
      ReadEscapedEscape(cells[0], "," + rest);
      assert ("," + rest)[1..] == rest;
      ReadCellsJoinQuoted(cells[1..]);
      assert cells == [cells[0]] + cells[1..];
    }
  }

  /** An exported data line reads back, cell by cell, as the record it was made from. */
  lemma ExportLineReadsBack(a: Appointment, dir: Directory, today: Date)
    ensures ReadCells(ExportLine(a, dir, today)) == Some(ExportRecord(a, dir, today))
  {
    ReadCellsJoinQuoted(ExportRecord(a, dir, today));
  }
}
