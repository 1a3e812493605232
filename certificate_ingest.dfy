/** Bulk certificate upload as the backend's certificate controller does it:
    reject a missing file, a non-CSV file or a caller without an email; trim
    the header keys of every parsed row; resolve each logical field from the
    first alias column with a non-blank value; set aside rows without a student
    name or course name; then upsert the remaining rows by roll number, one
    after another, counting inserts, updates and database failures, and hand an
    anchor request for every persisted row to the ledger without waiting for it.
    Also the offset and page arithmetic of the certificate list endpoint. */
module CertificateIngest {
  import opened Common
  import opened Hashing
  import opened CertificateTable
  import Paging

  datatype UploadedFile = UploadedFile(mimetype: string, originalName: string)

  /** One record from the CSV parser: (header, value) pairs in column order,
      headers as they appear in the file. */
  type RawRow = seq<(string, string)>

  // ---------------------------------------------------------------------------
  // Row normalisation and field mapping
  // ---------------------------------------------------------------------------

  /** The row with every header key trimmed. When two headers trim to the same
      key, the later column's value is kept. */
  function NormalizeRow(row: RawRow): map<string, string>
    decreases |row|
  {
    if row == [] then map[]
    else
      var last := row[|row| - 1];
      NormalizeRow(row[..|row| - 1])[Trim(last.0) := last.1]
  }

  /** The keys of a normalised row are exactly the trimmed headers. */
  lemma {:induction false} NormalizedKeys(row: RawRow, k: string)
    ensures k in NormalizeRow(row) <==> exists i :: 0 <= i < |row| && Trim(row[i].0) == k
    decreases |row|
  {
    if row != [] {
      var front := row[..|row| - 1];
      NormalizedKeys(front, k);
      if exists i :: 0 <= i < |front| && Trim(front[i].0) == k {
        var i :| 0 <= i < |front| && Trim(front[i].0) == k;
        assert row[i] == front[i];
      }
      if exists i :: 0 <= i < |row| && Trim(row[i].0) == k {
        var i :| 0 <= i < |row| && Trim(row[i].0) == k;
        if i < |front| {
          assert front[i] == row[i];
        }
      }
    }
  }

  /** Every key of a normalised row is already trimmed. */
  lemma NormalizedKeysAreTrimmed(row: RawRow)
    ensures forall k :: k in NormalizeRow(row) ==> Trim(k) == k
  {
    forall k | k in NormalizeRow(row) ensures Trim(k) == k {
      NormalizedKeys(row, k);
      var i :| 0 <= i < |row| && Trim(row[i].0) == k;
      TrimIdempotent(row[i].0);
    }
  }

  /** A key takes the value of the last column whose header trims to it. */
  lemma {:induction false} NormalizeLastColumnWins(row: RawRow, j: nat)
    requires j < |row|
    requires forall i :: j < i < |row| ==> Trim(row[i].0) != Trim(row[j].0)
    ensures Trim(row[j].0) in NormalizeRow(row)
    ensures NormalizeRow(row)[Trim(row[j].0)] == row[j].1
    decreases |row|
  {
    if j < |row| - 1 {
      NormalizeLastColumnWins(row[..|row| - 1], j);
    }
  }

  /** `row[key] && row[key].trim() !== ''`. */
  predicate Filled(row: map<string, string>, key: string) {
    key in row && Trim(row[key]) != ""
  }

  /** `mapField`: the trimmed value of the first alias whose value is not blank. */
  function MapField(row: map<string, string>, aliases: seq<string>): Option<string>
    decreases |aliases|
  {
    if aliases == [] then None
    else if Filled(row, aliases[0]) then Some(Trim(row[aliases[0]]))
    else MapField(row, aliases[1..])
  }

  /** `mapField` is undefined exactly when no alias has a non-blank value, and
      a value it returns is non-empty and already trimmed. */
  lemma {:induction false} MapFieldSpec(row: map<string, string>, aliases: seq<string>)
    ensures MapField(row, aliases).None? <==> forall i :: 0 <= i < |aliases| ==> !Filled(row, aliases[i])
    ensures MapField(row, aliases).Some? ==>
      MapField(row, aliases).value != "" && Trim(MapField(row, aliases).value) == MapField(row, aliases).value
    decreases |aliases|
  {
    if aliases != [] {
      if Filled(row, aliases[0]) {
        TrimIdempotent(row[aliases[0]]);
      } else {
        MapFieldSpec(row, aliases[1..]);
        assert forall i :: 1 <= i < |aliases| ==> aliases[i] == aliases[1..][i - 1];
      }
    }
  }

  /** The first filled alias decides the field, whatever the later ones hold. */
  lemma {:induction false} MapFieldFirstFilledWins(row: map<string, string>, aliases: seq<string>, j: nat)
    requires j < |aliases| && Filled(row, aliases[j])
    requires forall i :: 0 <= i < j ==> !Filled(row, aliases[i])
    ensures MapField(row, aliases) == Some(Trim(row[aliases[j]]))
    decreases j
  {
    if j > 0 {
      MapFieldFirstFilledWins(row, aliases[1..], j - 1);
    }
  }

  const RollAliases: seq<string> := ["Roll Number", "rollNumber", "roll_number", "certificateId", "ID", "id"]
  const NameAliases: seq<string> := ["studentName", "Name", "name", "student_name"]
  const CourseAliases: seq<string> := ["courseName", "Course", "course", "course_name"]
  const GradeAliases: seq<string> := ["grade", "CGPA", "Marks", "marks", "Percentage", "percentage", "GPA"]
  const DateAliases: seq<string> := ["issueDate", "Issued Year", "issued_year", "Year", "year"]
  const InstitutionAliases: seq<string> := ["institutionName", "Institution", "institution"]

  const DefaultInstitution := "Default Institution"

  /** A row that passed validation, with its 1-based position in the file. */
  datatype CleanRow = CleanRow(
    studentName: string,
    rollNumber: Option<string>,
    courseName: string,
    institution: string,
    issueDate: string,
    grade: string,
    rowNumber: nat)

  datatype RowError = RowError(row: nat, error: string)

  datatype RowResult = Accepted(clean: CleanRow) | Rejected(failure: RowError)

  /** The names of the mandatory fields that are missing, student name first. */
  function MissingFields(studentName: Option<string>, courseName: Option<string>): seq<string>
  {
    (if studentName.None? then ["student_name"] else []) + (if courseName.None? then ["course_name"] else [])
  }

  /** The parser's `data` handler for one row. `nowIso` is the upload time and
      `toIso` the date parser's reading of an issue-date cell, both as ISO text. */
  function ClassifyRow(raw: RawRow, rowNumber: nat, nowIso: string, toIso: string -> string): (r: RowResult)
    ensures r.Accepted? ==> r.clean.rowNumber == rowNumber && r.clean.studentName != "" && r.clean.courseName != ""
    ensures r.Rejected? ==> r.failure.row == rowNumber
  {
    var row := NormalizeRow(raw);
    var studentName := MapField(row, NameAliases);
    var courseName := MapField(row, CourseAliases);
    MapFieldSpec(row, NameAliases);
    MapFieldSpec(row, CourseAliases);
    if studentName.None? || courseName.None? then
      Rejected(RowError(rowNumber, "Missing required fields: " + JoinWith(MissingFields(studentName, courseName), ", ")))
    else
      var institution := MapField(row, InstitutionAliases);
      var issueDate := MapField(row, DateAliases);
      var grade := MapField(row, GradeAliases);
      Accepted(CleanRow(
        studentName.value,
        MapField(row, RollAliases),
        courseName.value,
        if institution.Some? then institution.value else DefaultInstitution,
        if issueDate.Some? then toIso(issueDate.value) else nowIso,
        if grade.Some? then grade.value else "",
        rowNumber))
  }

  /** No alias of the field has a non-blank value in the row. */
  predicate NoneFilled(row: map<string, string>, aliases: seq<string>) {
    forall i :: 0 <= i < |aliases| ==> !Filled(row, aliases[i])
  }

  /** A row is set aside exactly when no name alias or no course alias is filled. */
  lemma ClassifyRejectsIffMissing(raw: RawRow, rowNumber: nat, nowIso: string, toIso: string -> string)
    ensures ClassifyRow(raw, rowNumber, nowIso, toIso).Rejected? <==>
      NoneFilled(NormalizeRow(raw), NameAliases) || NoneFilled(NormalizeRow(raw), CourseAliases)
  {
    MapFieldSpec(NormalizeRow(raw), NameAliases);
    MapFieldSpec(NormalizeRow(raw), CourseAliases);
  }

  /** The rejection message lists the missing fields, student name first. */
  lemma ClassifyRejectionMessage(raw: RawRow, rowNumber: nat, nowIso: string, toIso: string -> string)
    requires NoneFilled(NormalizeRow(raw), NameAliases) || NoneFilled(NormalizeRow(raw), CourseAliases)
    ensures var row := NormalizeRow(raw);
      var missing := (if NoneFilled(row, NameAliases) then ["student_name"] else [])
                   + (if NoneFilled(row, CourseAliases) then ["course_name"] else []);
      ClassifyRow(raw, rowNumber, nowIso, toIso) == Rejected(RowError(rowNumber, "Missing required fields: " + JoinWith(missing, ", ")))
  {
    MapFieldSpec(NormalizeRow(raw), NameAliases);
    MapFieldSpec(NormalizeRow(raw), CourseAliases);
  }

  /** An accepted row carries the mapped fields, with 'Default Institution',
      an empty grade and the upload time standing in for absent columns. */
  lemma ClassifyAcceptedFields(raw: RawRow, rowNumber: nat, nowIso: string, toIso: string -> string)
    requires ClassifyRow(raw, rowNumber, nowIso, toIso).Accepted?
    ensures var row := NormalizeRow(raw);
      var c := ClassifyRow(raw, rowNumber, nowIso, toIso).clean;
      && Some(c.studentName) == MapField(row, NameAliases)
      && Some(c.courseName) == MapField(row, CourseAliases)
      && c.rollNumber == MapField(row, RollAliases)
      && (MapField(row, InstitutionAliases).None? ==> c.institution == DefaultInstitution)
      && (MapField(row, InstitutionAliases).Some? ==> c.institution == MapField(row, InstitutionAliases).value)
      && (MapField(row, GradeAliases).None? ==> c.grade == "")
      && (MapField(row, GradeAliases).Some? ==> c.grade == MapField(row, GradeAliases).value)
      && (MapField(row, DateAliases).None? ==> c.issueDate == nowIso)
      && (MapField(row, DateAliases).Some? ==> c.issueDate == toIso(MapField(row, DateAliases).value))
  {
  }

  /** The parser's `data` handler as a value: the classification of one row,
      given the row and its 1-based position. */
  type Handler = (RawRow, nat) -> RowResult

  /** The handler `bulkUpload` installs for an upload made at `nowIso`. */
  function UploadHandler(nowIso: string, toIso: string -> string): Handler {
    (raw: RawRow, rowNumber: nat) => ClassifyRow(raw, rowNumber, nowIso, toIso)
  }

  /** The parse phase over the rows of the file: the rows kept for the
      database step and the validation errors, both in file order. Every row
      ends up in exactly one of the two. */
  function ParseRows(rows: seq<RawRow>, handle: Handler): (p: (seq<CleanRow>, seq<RowError>))
    ensures |p.0| + |p.1| == |rows|
    decreases |rows|
  {
    if rows == [] then ([], [])
    else
      var p := ParseRows(rows[..|rows| - 1], handle);
      var r := handle(rows[|rows| - 1], |rows|);
      if r.Accepted? then (p.0 + [r.clean], p.1)
      else (p.0, p.1 + [r.failure])
  }

  /** Every kept row has a student name and a course name and carries a row
      number of the file. */
  lemma {:induction false} ParseRowsKeptNumbered(rows: seq<RawRow>, nowIso: string, toIso: string -> string, i: nat)
    requires i < |ParseRows(rows, UploadHandler(nowIso, toIso)).0|
    ensures var c := ParseRows(rows, UploadHandler(nowIso, toIso)).0[i];
      c.studentName != "" && c.courseName != "" && 1 <= c.rowNumber <= |rows|
    decreases |rows|
  {
    var handle := UploadHandler(nowIso, toIso);
    var front := rows[..|rows| - 1];
    var q := ParseRows(front, handle);
    var r := handle(rows[|rows| - 1], |rows|);
    assert r == ClassifyRow(rows[|rows| - 1], |rows|, nowIso, toIso);
    if i < |q.0| {
      ParseRowsKeptNumbered(front, nowIso, toIso, i);
      assert ParseRows(rows, handle).0[i] == q.0[i];
    } else {
      assert r.Accepted? && ParseRows(rows, handle).0[i] == r.clean;
    }
  }

  /** Every validation error carries a row number of the file. */
  lemma {:induction false} ParseRowsErrorNumbered(rows: seq<RawRow>, nowIso: string, toIso: string -> string, i: nat)
    requires i < |ParseRows(rows, UploadHandler(nowIso, toIso)).1|
    ensures 1 <= ParseRows(rows, UploadHandler(nowIso, toIso)).1[i].row <= |rows|
    decreases |rows|
  {
    var handle := UploadHandler(nowIso, toIso);
    var front := rows[..|rows| - 1];
    var q := ParseRows(front, handle);
    var r := handle(rows[|rows| - 1], |rows|);
    assert r == ClassifyRow(rows[|rows| - 1], |rows|, nowIso, toIso);
    if i < |q.1| {
      ParseRowsErrorNumbered(front, nowIso, toIso, i);
      assert ParseRows(rows, handle).1[i] == q.1[i];
    } else {
      assert r.Rejected? && ParseRows(rows, handle).1[i] == r.failure;
    }
  }

  // ---------------------------------------------------------------------------
  // Persistence: upsert by roll number, counters, anchor requests
  // ---------------------------------------------------------------------------

  /** A `store-hash` request handed to the ledger and not awaited. */
  datatype AnchorRequest = AnchorRequest(certId: Option<string>, hash: Digest, issuer: string)

  function OptionalText(o: Option<string>): JsonScalar {
    if o.Some? then JStr(o.value) else JNull
  }

  /** The digest the upload anchors: SHA-256 over
      {roll_number, student_name, course_name, issue_date, grade}. */
  function IngestDigest(c: Certificate): Digest {
    Sha256([("roll_number", OptionalText(c.rollNumber)), ("student_name", JStr(c.studentName)),
            ("course_name", JStr(c.courseName)), ("issue_date", JStr(c.issueDate)), ("grade", JStr(c.grade))])
  }

  /** An existing record with the upload's payload columns written over it. */
  function WithPayload(c: Certificate, row: CleanRow): Certificate {
    c.(studentName := row.studentName, rollNumber := row.rollNumber, courseName := row.courseName,
       institution := Some(row.institution), issueDate := row.issueDate, grade := row.grade)
  }

  function NewCertificate(row: CleanRow): Certificate {
    Certificate(None, row.studentName, row.rollNumber, row.courseName, Some(row.institution),
                row.issueDate, row.grade, None, false)
  }

  /** The record's columns the upload writes agree with the row. */
  predicate HasPayload(c: Certificate, row: CleanRow) {
    && c.studentName == row.studentName && c.rollNumber == row.rollNumber && c.courseName == row.courseName
    && c.institution == Some(row.institution) && c.issueDate == row.issueDate && c.grade == row.grade
  }

  /** The record's columns the upload never writes. */
  function Untouched(c: Certificate): (Option<string>, Option<string>, bool) {
    (c.certificateId, c.status, c.blacklisted)
  }

  datatype Outcome = Inserted(cert: Certificate) | Updated(cert: Certificate) | DbFailed(message: string)

  /** What the database step does with one row. `faults` maps the row numbers
      whose lookup or write raised to the error message. */
  function Upsert(t: Snapshot, row: CleanRow, faults: map<nat, string>): Outcome {
    if row.rowNumber in faults then DbFailed(faults[row.rowNumber])
    else if row.rollNumber.Some? && row.rollNumber.value in t.byRoll then
      Updated(WithPayload(t.byRoll[row.rollNumber.value], row))
    else Inserted(NewCertificate(row))
  }

  const DbErrorPrefix := "Database error: "

  function Put(t: Snapshot, c: Certificate): Snapshot {
    if c.rollNumber.Some? then t.(byRoll := t.byRoll[c.rollNumber.value := c])
    else t.(unkeyed := t.unkeyed + [c])
  }

  /** The state of the database loop after some rows. */
  datatype Run = Run(table: Snapshot, inserted: nat, updated: nat, dbFailed: nat,
                     errors: seq<RowError>, anchors: seq<AnchorRequest>)

  function Step(r: Run, row: CleanRow, faults: map<nat, string>, issuer: string): Run {
    match Upsert(r.table, row, faults)
    case DbFailed(m) =>
      r.(dbFailed := r.dbFailed + 1, errors := r.errors + [RowError(row.rowNumber, DbErrorPrefix + m)])
    case Updated(c) =>
      r.(table := Put(r.table, c), updated := r.updated + 1,
         anchors := r.anchors + [AnchorRequest(c.rollNumber, IngestDigest(c), issuer)])
    case Inserted(c) =>
      r.(table := Put(r.table, c), inserted := r.inserted + 1,
         anchors := r.anchors + [AnchorRequest(c.rollNumber, IngestDigest(c), issuer)])
  }

  /** The database loop over the valid rows, in file order. */
  function PersistAll(t: Snapshot, rows: seq<CleanRow>, faults: map<nat, string>, issuer: string): Run
    decreases |rows|
  {
    if rows == [] then Run(t, 0, 0, 0, [], [])
    else Step(PersistAll(t, rows[..|rows| - 1], faults, issuer), rows[|rows| - 1], faults, issuer)
  }

  /** Every valid row adds one to exactly one of inserted, updated and failed;
      every failure leaves one error entry and every persisted row one anchor. */
  lemma {:induction false} PersistCountsConserved(t: Snapshot, rows: seq<CleanRow>, faults: map<nat, string>, issuer: string)
    ensures var r := PersistAll(t, rows, faults, issuer);
      && r.inserted + r.updated + r.dbFailed == |rows|
      && |r.errors| == r.dbFailed
      && |r.anchors| == r.inserted + r.updated
    decreases |rows|
  {
    if rows != [] {
      PersistCountsConserved(t, rows[..|rows| - 1], faults, issuer);
    }
  }

  /** The upsert keeps every keyed record under its own roll number. */
  lemma {:induction false} PersistKeepsWellKeyed(t: Snapshot, rows: seq<CleanRow>, faults: map<nat, string>, issuer: string)
    requires WellKeyed(t)
    ensures WellKeyed(PersistAll(t, rows, faults, issuer).table)
    decreases |rows|
  {
    if rows != [] {
      PersistKeepsWellKeyed(t, rows[..|rows| - 1], faults, issuer);
    }
  }

  /** The roll number under which a row would be stored, if it is not a failure. */
  predicate WritesKey(row: CleanRow, faults: map<nat, string>, k: string) {
    row.rowNumber !in faults && row.rollNumber == Some(k)
  }

  /** The keys after the loop are the old keys plus the roll numbers of the rows
      that were persisted. */
  lemma {:induction false} PersistKeys(t: Snapshot, rows: seq<CleanRow>, faults: map<nat, string>, issuer: string, k: string)
    ensures k in PersistAll(t, rows, faults, issuer).table.byRoll <==>
      k in t.byRoll || exists i :: 0 <= i < |rows| && WritesKey(rows[i], faults, k)
    decreases |rows|
  {
    if rows != [] {
      var front := rows[..|rows| - 1];
      var last := rows[|rows| - 1];
      PersistKeys(t, front, faults, issuer, k);
      StepKeys(PersistAll(t, front, faults, issuer), last, faults, issuer, k);
      var inFront := exists i :: 0 <= i < |front| && WritesKey(front[i], faults, k);
      var inRows := exists i :: 0 <= i < |rows| && WritesKey(rows[i], faults, k);
      if inRows {
        var i :| 0 <= i < |rows| && WritesKey(rows[i], faults, k);
        if i < |rows| - 1 {
          assert WritesKey(front[i], faults, k);
        }
      }
      if inFront {
        var i :| 0 <= i < |front| && WritesKey(front[i], faults, k);
        assert WritesKey(rows[i], faults, k);
      }
      assert inRows <==> inFront || WritesKey(last, faults, k);
    }
  }

  /** One step of the loop adds the key the row writes, if any, and no other. */
  lemma StepKeys(r: Run, row: CleanRow, faults: map<nat, string>, issuer: string, k: string)
    ensures k in Step(r, row, faults, issuer).table.byRoll <==> k in r.table.byRoll || WritesKey(row, faults, k)
  {
  }

  /** Last write wins: when row `j` is the last persisted row with roll number
      `k`, the record under `k` holds that row's columns. */
  lemma {:induction false} PersistLastWriteWins(t: Snapshot, rows: seq<CleanRow>, faults: map<nat, string>, issuer: string, j: nat, k: string)
    requires j < |rows| && WritesKey(rows[j], faults, k)
    requires forall i :: j < i < |rows| ==> !WritesKey(rows[i], faults, k)
    ensures k in PersistAll(t, rows, faults, issuer).table.byRoll
    ensures HasPayload(PersistAll(t, rows, faults, issuer).table.byRoll[k], rows[j])
    decreases |rows|
  {
    var front := rows[..|rows| - 1];
    var last := rows[|rows| - 1];
    if j < |rows| - 1 {
      PersistLastWriteWins(t, front, faults, issuer, j, k);
      assert !WritesKey(last, faults, k);
      StepKeepsOtherKey(PersistAll(t, front, faults, issuer), last, faults, issuer, k);
    } else {
      StepWritesKey(PersistAll(t, front, faults, issuer), last, faults, issuer, k);
    }
  }

  /** A step whose row writes `k` leaves that row's columns under `k`. */
  lemma StepWritesKey(r: Run, row: CleanRow, faults: map<nat, string>, issuer: string, k: string)
    requires WritesKey(row, faults, k)
    ensures k in Step(r, row, faults, issuer).table.byRoll
    ensures HasPayload(Step(r, row, faults, issuer).table.byRoll[k], row)
  {
  }

  /** A step whose row does not write `k` leaves the record under `k` alone. */
  lemma StepKeepsOtherKey(r: Run, row: CleanRow, faults: map<nat, string>, issuer: string, k: string)
    requires k in r.table.byRoll && !WritesKey(row, faults, k)
    ensures k in Step(r, row, faults, issuer).table.byRoll
    ensures Step(r, row, faults, issuer).table.byRoll[k] == r.table.byRoll[k]
  {
  }

  /** A key that no persisted row writes keeps its record. */
  lemma {:induction false} PersistLeavesOtherKeys(t: Snapshot, rows: seq<CleanRow>, faults: map<nat, string>, issuer: string, k: string)
    requires k in t.byRoll
    requires forall i :: 0 <= i < |rows| ==> !WritesKey(rows[i], faults, k)
    ensures k in PersistAll(t, rows, faults, issuer).table.byRoll
    ensures PersistAll(t, rows, faults, issuer).table.byRoll[k] == t.byRoll[k]
    decreases |rows|
  {
    if rows != [] {
      PersistLeavesOtherKeys(t, rows[..|rows| - 1], faults, issuer, k);
      assert !WritesKey(rows[|rows| - 1], faults, k);
      StepKeepsOtherKey(PersistAll(t, rows[..|rows| - 1], faults, issuer), rows[|rows| - 1], faults, issuer, k);
    }
  }

  /** The upload never changes the identifier, status or blacklist flag of a
      record that already existed. */
  lemma {:induction false} PersistKeepsUntouchedColumns(t: Snapshot, rows: seq<CleanRow>, faults: map<nat, string>, issuer: string, k: string)
    requires k in t.byRoll
    ensures k in PersistAll(t, rows, faults, issuer).table.byRoll
    ensures Untouched(PersistAll(t, rows, faults, issuer).table.byRoll[k]) == Untouched(t.byRoll[k])
    decreases |rows|
  {
    if rows != [] {
      PersistKeepsUntouchedColumns(t, rows[..|rows| - 1], faults, issuer, k);
    }
  }

  /** When every row has a roll number that is already stored and no database
      step fails, the loop only updates. */
  lemma {:induction false} PersistOnlyUpdatesKnownKeys(t: Snapshot, rows: seq<CleanRow>, faults: map<nat, string>, issuer: string)
    requires forall i :: 0 <= i < |rows| ==> rows[i].rowNumber !in faults
    requires forall i :: 0 <= i < |rows| ==> rows[i].rollNumber.Some? && rows[i].rollNumber.value in t.byRoll
    ensures PersistAll(t, rows, faults, issuer).inserted == 0
    ensures PersistAll(t, rows, faults, issuer).updated == |rows|
    ensures PersistAll(t, rows, faults, issuer).table.byRoll.Keys == t.byRoll.Keys
    decreases |rows|
  {
    if rows != [] {
      var front := rows[..|rows| - 1];
      PersistOnlyUpdatesKnownKeys(t, front, faults, issuer);
    }
  }

  /** Re-ingesting the same batch: when every row has a roll number and no
      database step fails, uploading the batch a second time inserts nothing
      and leaves every keyed record as the first upload left it. */
  lemma ReingestIsIdempotent(t: Snapshot, rows: seq<CleanRow>, faults: map<nat, string>, issuer: string)
    requires forall i :: 0 <= i < |rows| ==> rows[i].rowNumber !in faults && rows[i].rollNumber.Some?
    ensures var once := PersistAll(t, rows, faults, issuer).table;
      var twice := PersistAll(once, rows, faults, issuer);
      twice.inserted == 0 && twice.table.byRoll == once.byRoll
  {
    var once := PersistAll(t, rows, faults, issuer).table;
    forall i | 0 <= i < |rows| ensures rows[i].rollNumber.value in once.byRoll {
      PersistKeys(t, rows, faults, issuer, rows[i].rollNumber.value);
      assert WritesKey(rows[i], faults, rows[i].rollNumber.value);
    }
    PersistOnlyUpdatesKnownKeys(once, rows, faults, issuer);
    var twice := PersistAll(once, rows, faults, issuer).table;
    forall k | k in once.byRoll ensures twice.byRoll[k] == once.byRoll[k] {
      PersistKeepsUntouchedColumns(once, rows, faults, issuer, k);
      if exists i :: 0 <= i < |rows| && WritesKey(rows[i], faults, k) {
        var j := LastWriter(rows, faults, k);
        PersistLastWriteWins(t, rows, faults, issuer, j, k);
        PersistLastWriteWins(once, rows, faults, issuer, j, k);
      } else {
        PersistLeavesOtherKeys(once, rows, faults, issuer, k);
      }
    }
  }

  /** The index of the last row that writes key `k`. */
  lemma LastWriter(rows: seq<CleanRow>, faults: map<nat, string>, k: string) returns (j: nat)
    requires exists i :: 0 <= i < |rows| && WritesKey(rows[i], faults, k)
    ensures j < |rows| && WritesKey(rows[j], faults, k)
    ensures forall i :: j < i < |rows| ==> !WritesKey(rows[i], faults, k)
  {
    j := |rows| - 1;
    while !WritesKey(rows[j], faults, k)
      invariant 0 <= j < |rows|
      invariant forall i :: j < i < |rows| ==> !WritesKey(rows[i], faults, k)
      invariant exists i :: 0 <= i <= j && WritesKey(rows[i], faults, k)
      decreases j
    {
      j := j - 1;
    }
  }

  // ---------------------------------------------------------------------------
  // The endpoint
  // ---------------------------------------------------------------------------

  datatype Summary = Summary(total: nat, inserted: nat, updated: nat, failed: nat)

  datatype UploadResponse = UploadResponse(code: nat, status: string, message: string, summary: Summary, errors: seq<RowError>)

  /** How the parse phase ended. The parser's promise resolves at the end of
      the stream, on a parse error or after five seconds, whichever comes
      first; `Delivered(n)` says how many rows the parser had handed over by
      then. `TimedOut` is the handler's branch for the 25-second deadline
      winning the race; since the five-second resolve always comes first,
      the code as written never takes it. */
  datatype ParseOutcome = Delivered(rowsRead: nat) | TimedOut

  /** The rows handed to the `data` handler before the parse phase ended. */
  function RowsRead(rows: seq<RawRow>, parse: ParseOutcome): (read: seq<RawRow>)
    requires parse.Delivered?
    ensures read <= rows
    ensures parse.rowsRead >= |rows| ==> read == rows
  {
    if parse.rowsRead >= |rows| then rows else rows[..parse.rowsRead]
  }

  const ZeroSummary := Summary(0, 0, 0, 0)

  /** The request checks made before any row is read. */
  const CsvMimeType := "text/csv"
  const CsvExtension := ".csv"
  const NoFileMessage := "No CSV file uploaded"
  const BadTypeMessage := "Invalid file type. Only CSV files are allowed."
  const SessionExpiredMessage := "Authentication/session expired. Please log in again."
  const CompletedMessage := "Bulk certificate upload completed"

  function Precheck(file: Option<UploadedFile>, email: Option<string>): Option<UploadResponse> {
    if file.None? then
      Some(UploadResponse(400, "error", NoFileMessage, ZeroSummary, []))
    else if file.value.mimetype != CsvMimeType && !EndsWith(Lower(file.value.originalName), CsvExtension) then
      Some(UploadResponse(400, "error", BadTypeMessage, ZeroSummary, []))
    else if !Truthy(email) then
      Some(UploadResponse(401, "error", SessionExpiredMessage, ZeroSummary, []))
    else None
  }

  const TimeoutResponse := UploadResponse(500, "error",
    "Bulk upload timed out. Please try a smaller file or check your network.", ZeroSummary, [])

  /** The response once both loops are done. */
  function Completed(total: nat, validationErrors: seq<RowError>, r: Run): UploadResponse {
    UploadResponse(200, "success", CompletedMessage,
      Summary(total, r.inserted, r.updated, |validationErrors| + r.dbFailed),
      validationErrors + r.errors)
  }

  /** Every rejected request reports an all-zero summary and no row. */
  lemma PrecheckRejectsWithZeroSummary(file: Option<UploadedFile>, email: Option<string>)
    ensures Precheck(file, email).Some? ==>
      Precheck(file, email).value.summary == ZeroSummary && Precheck(file, email).value.errors == []
    ensures Precheck(file, email).None? <==>
      file.Some? && (file.value.mimetype == CsvMimeType || EndsWith(Lower(file.value.originalName), CsvExtension)) && Truthy(email)
  {
  }

  /** The summary of a completed upload: total counts the valid rows; each of
      them is inserted, updated or failed; failed also counts every validation
      error; and the error list has one entry per failure. */
  lemma CompletedSummaryConserved(rows: seq<RawRow>, nowIso: string, toIso: string -> string,
                                  t: Snapshot, faults: map<nat, string>, issuer: string)
    ensures var p := ParseRows(rows, UploadHandler(nowIso, toIso));
      var r := PersistAll(t, p.0, faults, issuer);
      var s := Completed(|p.0|, p.1, r).summary;
      && s.total == |p.0|
      && s.total + |p.1| == |rows|
      && s.inserted + s.updated + (s.failed - |p.1|) == s.total
      && s.failed == |Completed(|p.0|, p.1, r).errors|
      && |r.anchors| == s.inserted + s.updated
  {
    var p := ParseRows(rows, UploadHandler(nowIso, toIso));
    PersistCountsConserved(t, p.0, faults, issuer);
  }

  /** The CSV parser: `handle` applied to every row in file order, each
      result appended to the valid rows or to the errors. */
  method ParseCsv(rows: seq<RawRow>, handle: Handler) returns (csvData: seq<CleanRow>, errors: seq<RowError>)
    ensures (csvData, errors) == ParseRows(rows, handle)
  {
    csvData, errors := [], [];
    var rowNumber := 0;
    while rowNumber < |rows|
      invariant 0 <= rowNumber <= |rows|
      invariant (csvData, errors) == ParseRows(rows[..rowNumber], handle)
    {
      var result := handle(rows[rowNumber], rowNumber + 1);
      assert rows[..rowNumber + 1][..rowNumber] == rows[..rowNumber];
      if result.Rejected? {
        errors := errors + [result.failure];
      } else {
        csvData := csvData + [result.clean];
      }
      rowNumber := rowNumber + 1;
    }
    assert rows[..|rows|] == rows;
  }

  /** The database loop: one upsert per valid row, in order, each followed by
      an anchor request that is not awaited. */
  method SaveRows(table: Table, csvData: seq<CleanRow>, faults: map<nat, string>, issuer: string)
    returns (inserted: nat, updated: nat, dbFailed: nat, dbErrors: seq<RowError>, anchors: seq<AnchorRequest>)
    requires table.Valid()
    modifies table
    ensures table.Valid()
    ensures var r := PersistAll(old(table.Contents()), csvData, faults, issuer);
      && table.Contents() == r.table
      && (inserted, updated, dbFailed, dbErrors, anchors) == (r.inserted, r.updated, r.dbFailed, r.errors, r.anchors)
  {
    ghost var start := table.Contents();
    ghost var run := PersistAll(start, [], faults, issuer);
    inserted, updated, dbFailed, dbErrors, anchors := 0, 0, 0, [], [];
    var i := 0;
    while i < |csvData|
      invariant 0 <= i <= |csvData|
      invariant run == PersistAll(start, csvData[..i], faults, issuer)
      invariant table.Contents() == run.table
      invariant inserted == run.inserted && updated == run.updated && dbFailed == run.dbFailed
      invariant dbErrors == run.errors && anchors == run.anchors
    {
      var row := csvData[i];
      assert csvData[..i + 1][..i] == csvData[..i];
      run := Step(run, row, faults, issuer);
      if row.rowNumber in faults {
        dbFailed := dbFailed + 1;
        dbErrors := dbErrors + [RowError(row.rowNumber, DbErrorPrefix + faults[row.rowNumber])];
      } else {
        var certificate: Certificate;
        if row.rollNumber.Some? && row.rollNumber.value in table.byRoll {
          certificate := WithPayload(table.byRoll[row.rollNumber.value], row);
          table.byRoll := table.byRoll[row.rollNumber.value := certificate];
          updated := updated + 1;
        } else {
          certificate := NewCertificate(row);
          if row.rollNumber.Some? {
            table.byRoll := table.byRoll[row.rollNumber.value := certificate];
          } else {
            table.unkeyed := table.unkeyed + [certificate];
          }
          inserted := inserted + 1;
        }
        // Fire and forget: the request is recorded, its answer is never read.
        anchors := anchors + [AnchorRequest(certificate.rollNumber, IngestDigest(certificate), issuer)];
      }
      i := i + 1;
    }
    assert csvData[..|csvData|] == csvData;
    PersistKeepsWellKeyed(start, csvData, faults, issuer);
  }

  /** `bulkUpload`: the request checks, the parse phase (or its timeout), then
      the database loop and the summary. */
  method BulkUpload(table: Table, file: Option<UploadedFile>, email: Option<string>, parse: ParseOutcome,
                    rows: seq<RawRow>, nowIso: string, toIso: string -> string, faults: map<nat, string>)
    returns (resp: UploadResponse, anchors: seq<AnchorRequest>)
    requires table.Valid()
    modifies table
    ensures table.Valid()
    ensures Precheck(file, email).Some? ==>
      resp == Precheck(file, email).value && anchors == [] && table.Contents() == old(table.Contents())
    ensures Precheck(file, email).None? && parse == TimedOut ==>
      resp == TimeoutResponse && anchors == [] && table.Contents() == old(table.Contents())
    ensures Precheck(file, email).None? && parse.Delivered? ==>
      var p := ParseRows(RowsRead(rows, parse), UploadHandler(nowIso, toIso));
      var r := PersistAll(old(table.Contents()), p.0, faults, email.value);
      && table.Contents() == r.table
      && anchors == r.anchors
      && resp == Completed(|p.0|, p.1, r)
  {
    anchors := [];
    var rejection := Precheck(file, email);
    if rejection.Some? {
      return rejection.value, anchors;
    }
    if parse == TimedOut {
      return TimeoutResponse, anchors;
    }
    var csvData, errors := ParseCsv(RowsRead(rows, parse), UploadHandler(nowIso, toIso));
    var total := |csvData|;
    var inserted, updated, dbFailed, dbErrors;
    inserted, updated, dbFailed, dbErrors, anchors := SaveRows(table, csvData, faults, email.value);
    resp := UploadResponse(200, "success", CompletedMessage,
      Summary(total, inserted, updated, |errors| + dbFailed), errors + dbErrors);
  }

  // ---------------------------------------------------------------------------
  // getAllCertificates
  // ---------------------------------------------------------------------------

  datatype ListPagination = ListPagination(currentPage: int, totalPages: int, totalRecords: nat, hasNext: bool, hasPrev: bool)

  datatype ListResponse =
    | Listed(certificates: seq<Certificate>, pagination: ListPagination)
    | ListFailed(code: nat, message: string)

  /** The inclusive row range the list endpoint asks the store for. */
  function RequestedRange(pageQuery: Option<int>, limitQuery: Option<int>): (range: (int, int))
  {
    var page := Paging.QueryIntOr(pageQuery, 1);
    var limit := Paging.QueryIntOr(limitQuery, 10);
    var offset := Paging.Offset(page, limit);
    (offset, offset + limit - 1)
  }

  /** `getAllCertificates`: `answer` is the store's reply for the requested
      range, the rows and the exact row count, or `None` when it fails. */
  function ListCertificates(pageQuery: Option<int>, limitQuery: Option<int>, answer: Option<(seq<Certificate>, nat)>): ListResponse
  {
    var page := Paging.QueryIntOr(pageQuery, 1);
    var limit := Paging.QueryIntOr(limitQuery, 10);
    if answer.None? then ListFailed(500, "Failed to fetch certificates")
    else
      var count := answer.value.1;
      var pages := if count > 0 then CeilDiv(count, limit) else 0;
      Listed(answer.value.0, ListPagination(page, pages, count, count > 0 && page < pages, page > 1))
  }

  /** The rows of an ordered table whose index lies in the inclusive range
      `[from, to]`, as the store's `range(from, to)` selects them. */
  function RangeSelect<T>(rows: seq<T>, from: nat, to: int): seq<T>
  {
    var a := if from <= |rows| then from else |rows|;
    var b := if to + 1 <= a then a else if to + 1 <= |rows| then to + 1 else |rows|;
    rows[a..b]
  }

  /** The requested range covers exactly `limit` rows starting at
      `(page - 1) * limit`, with page 1 and limit 10 standing in for absent,
      unparsable or zero query values; for a positive page and limit the rows
      it selects from the ordered table are exactly the page the admin
      endpoints would cut with `slice`. */
  lemma RequestedRangeIsOnePage<T>(pageQuery: Option<int>, limitQuery: Option<int>, rows: seq<T>)
    ensures var page := if pageQuery.Some? && pageQuery.value != 0 then pageQuery.value else 1;
      var limit := if limitQuery.Some? && limitQuery.value != 0 then limitQuery.value else 10;
      var range := RequestedRange(pageQuery, limitQuery);
      && range.0 == (page - 1) * limit && range.1 - range.0 + 1 == limit
      && (page >= 1 && limit >= 1 ==>
            range.0 >= 0 && RangeSelect(rows, range.0, range.1) == Paging.PageOf(rows, page, limit))
  {
    var page := Paging.QueryIntOr(pageQuery, 1);
    var limit := Paging.QueryIntOr(limitQuery, 10);
    if page >= 1 && limit >= 1 {
      var range := RequestedRange(pageQuery, limitQuery);
      Paging.MulMonotone(0, page - 1, limit);
      JsSliceWindow(rows, range.0, range.0 + limit);
      var got := RangeSelect(rows, range.0, range.1);
      var want := Paging.PageOf(rows, page, limit);
      assert |got| == |want|;
      assert forall k :: 0 <= k < |got| ==> got[k] == rows[range.0 + k] == want[k];
    }
  }

  /** With at least one record the list pagination agrees with the admin
      endpoints' pagination; with none it reports no pages and no next page. */
  lemma ListPaginationMatchesPaging(pageQuery: Option<int>, limitQuery: Option<int>, rows: seq<Certificate>, count: nat)
    ensures var page := Paging.QueryIntOr(pageQuery, 1);
      var limit := Paging.QueryIntOr(limitQuery, 10);
      var r := ListCertificates(pageQuery, limitQuery, Some((rows, count)));
      && r.Listed? && r.certificates == rows
      && (count > 0 ==>
            var p := Paging.PageInfoOf(page, limit, count);
            r.pagination == ListPagination(p.currentPage, p.totalPages, p.totalItems, p.hasNext, p.hasPrev))
      && (count == 0 ==> r.pagination.totalPages == 0 && !r.pagination.hasNext && (r.pagination.hasPrev <==> page > 1))
  {
    Paging.QueryIntNonZero(limitQuery, 10);
  }
}
