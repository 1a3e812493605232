/** Bulk upload as the earlier backend variant does it: split the uploaded
    text into non-blank lines, require the five mandatory headers, then walk
    the data rows in order, rejecting rows whose column count differs from the
    header's and rows the certificate schema refuses, and upserting the rest by
    `certId` with a fresh digest. The ledger's `storeHash` is started for each
    persisted row and not awaited; only its later success marks the record as
    anchored. */
module BackupIngest {
  import opened Common
  import opened Hashing
  import opened BackupStore

  const RequiredHeaders: seq<string> := ["certId", "name", "roll", "course", "institution"]

  /** The lines of the upload that are not blank, in order. */
  function NonBlankLines(text: string): seq<string>
  {
    Filter(Split(text, '\n'), (l: string) => Trim(l) != "")
  }

  /** `line.split(',').map(v => v.trim())`. */
  function Cells(line: string): seq<string>
  {
    var parts := Split(line, ',');
    seq(|parts|, i requires 0 <= i < |parts| => Trim(parts[i]))
  }

  /** A line has one cell more than it has commas, and each cell is the
      trimmed text between two of them. */
  lemma CellsSpec(line: string, i: nat)
    ensures |Cells(line)| == Occurrences(line, ',') + 1
    ensures i < |Cells(line)| ==> Cells(line)[i] == Trim(Split(line, ',')[i]) && Trim(Cells(line)[i]) == Cells(line)[i]
  {
    SplitCount(line, ',');
    if i < |Cells(line)| {
      TrimIdempotent(Split(line, ',')[i]);
    }
  }

  /** The mandatory headers that the header line lacks, in their fixed order. */
  function MissingHeaders(headers: seq<string>): seq<string>
  {
    Filter(RequiredHeaders, (h: string) => h !in headers)
  }

  /** A header is reported missing exactly when it is mandatory and absent. */
  lemma MissingHeadersSpec(headers: seq<string>, h: string)
    ensures h in MissingHeaders(headers) <==> h in RequiredHeaders && h !in headers
  {
    FilterSpec(RequiredHeaders, (h: string) => h !in headers);
    if h in RequiredHeaders && h !in headers {
      FilterComplete(RequiredHeaders, (h: string) => h !in headers, h);
    }
  }

  // ---------------------------------------------------------------------------
  // One data row
  // ---------------------------------------------------------------------------

  /** The object built by assigning each header its cell, in header order: a
      repeated header keeps its first position and its last cell. */
  function RowObject(headers: seq<string>, values: seq<string>): (obj: seq<(string, string)>)
    requires |headers| == |values|
    ensures UniqueKeys(obj)
    decreases |headers|
  {
    if headers == [] then []
    else
      var n := |headers| - 1;
      var prev := RowObject(headers[..n], values[..n]);
      AssocPutUnique(prev, headers[n], values[n]);
      AssocPut(prev, headers[n], values[n])
  }

  /** A header's value in the row object is the cell of its last column. */
  lemma {:induction false} RowObjectLastColumnWins(headers: seq<string>, values: seq<string>, j: nat)
    requires |headers| == |values| && j < |headers|
    requires forall i :: j < i < |headers| ==> headers[i] != headers[j]
    ensures AssocGet(RowObject(headers, values), headers[j]) == Some(values[j])
    decreases |headers|
  {
    var n := |headers| - 1;
    AssocPutSpec(RowObject(headers[..n], values[..n]), headers[n], values[n]);
    if j < n {
      RowObjectLastColumnWins(headers[..n], values[..n], j);
    }
  }

  /** A key is in the row object exactly when it is one of the headers. */
  lemma {:induction false} RowObjectKeys(headers: seq<string>, values: seq<string>, k: string)
    requires |headers| == |values|
    ensures AssocGet(RowObject(headers, values), k).Some? <==> k in headers
    decreases |headers|
  {
    if headers != [] {
      var n := |headers| - 1;
      RowObjectKeys(headers[..n], values[..n], k);
      AssocPutSpec(RowObject(headers[..n], values[..n]), headers[n], values[n]);
      assert headers == headers[..n] + [headers[n]];
    }
  }

  /** The certificate schema: only the five mandatory keys, each a non-empty
      string. */
  predicate SchemaAccepts(obj: seq<(string, string)>) {
    && (forall i :: 0 <= i < |obj| ==> obj[i].0 in RequiredHeaders)
    && (forall h :: h in RequiredHeaders ==> AssocGet(obj, h).Some? && AssocGet(obj, h).value != "")
  }

  /** The value under `k`, or the empty string when absent. */
  function Get(obj: seq<(string, string)>, k: string): string {
    var v := AssocGet(obj, k);
    if v.Some? then v.value else ""
  }

  /** The digest the upload stores and anchors: SHA-256 of the validated
      object, keys in header order. */
  function RowDigest(obj: seq<(string, string)>): Digest {
    Sha256(seq(|obj|, i requires 0 <= i < |obj| => (obj[i].0, JStr(obj[i].1))))
  }

  /** A `storeHash(certId, hash, institution)` call that is not awaited. */
  datatype AnchorRequest = AnchorRequest(certId: string, hash: Digest, issuer: string)

  function RowMessage(rowNumber: nat, text: string): string {
    "Row " + NatToString(rowNumber) + ": " + text
  }

  /** The loop's state after some data rows: the table, the counters, the
      error strings and the anchor requests. `rejected` counts rows refused
      before the database step, `dbFailed` rows whose database step raised;
      `failed` in the response is their sum. */
  datatype Run = Run(store: map<string, Record>, total: nat, inserted: nat, updated: nat,
                     rejected: nat, dbFailed: nat, errors: seq<string>, anchors: seq<AnchorRequest>)

  /** What the loop makes of one data row before the database step. */
  datatype Verdict = ColumnMismatch | Refused(message: string) | Accepted(obj: seq<(string, string)>)

  /** The column-count check and the schema check. `joiMessage` is the
      schema's first error message for a refused object. */
  function Judge(headers: seq<string>, line: string, joiMessage: seq<(string, string)> -> string): (v: Verdict)
    ensures v.Accepted? ==> SchemaAccepts(v.obj)
  {
    var values := Cells(line);
    if |values| != |headers| then ColumnMismatch
    else
      var obj := RowObject(headers, values);
      if !SchemaAccepts(obj) then Refused(joiMessage(obj)) else Accepted(obj)
  }

  /** The row's certificate written over an existing record (which keeps its
      `onChain`, status and blacklist flag) or as a new, off-chain record. */
  function Upserted(store: map<string, Record>, obj: seq<(string, string)>): Record {
    var name, roll, course, inst := Some(Get(obj, "name")), Some(Get(obj, "roll")), Some(Get(obj, "course")), Some(Get(obj, "institution"));
    var certId := Get(obj, "certId");
    if certId in store then
      store[certId].(name := name, roll := roll, course := course, institution := inst, hash := Some(RowDigest(obj)))
    else Record(name, roll, course, inst, Some(RowDigest(obj)), false, None, false)
  }

  /** The checks the loop makes of one data line, as a value. */
  type RowCheck = string -> Verdict

  /** The checks of `bulkUpload`: the column count against `headers`, then
      the schema. */
  function RowJudge(headers: seq<string>, joiMessage: seq<(string, string)> -> string): RowCheck {
    (line: string) => Judge(headers, line, joiMessage)
  }

  /** One iteration of the loop, given the row's verdict. `faults` maps the row
      numbers whose lookup or write raised to the error message. */
  function Apply(r: Run, v: Verdict, rowNumber: nat, faults: map<nat, string>): Run
  {
    match v
    case ColumnMismatch =>
      r.(rejected := r.rejected + 1, errors := r.errors + [RowMessage(rowNumber, "Column count mismatch")])
    case Refused(m) =>
      r.(rejected := r.rejected + 1, errors := r.errors + [RowMessage(rowNumber, m)])
    case Accepted(obj) =>
      if rowNumber in faults then
        r.(total := r.total + 1, dbFailed := r.dbFailed + 1,
           errors := r.errors + [RowMessage(rowNumber, "Database error - " + faults[rowNumber])])
      else
        var certId := Get(obj, "certId");
        var anchor := AnchorRequest(certId, RowDigest(obj), Get(obj, "institution"));
        var r' := r.(store := r.store[certId := Upserted(r.store, obj)], total := r.total + 1, anchors := r.anchors + [anchor]);
        if certId in r.store then r'.(updated := r.updated + 1) else r'.(inserted := r.inserted + 1)
  }

  /** The loop over the data rows; the row at index `i` is file row `i + 2`. */
  function Process(store: map<string, Record>, rows: seq<string>, faults: map<nat, string>, judge: RowCheck): Run
    decreases |rows|
  {
    if rows == [] then Run(store, 0, 0, 0, 0, 0, [], [])
    else
      var n := |rows| - 1;
      Apply(Process(store, rows[..n], faults, judge), judge(rows[n]), n + 2, faults)
  }

  /** `total` counts exactly the rows that reached the database step and equals
      inserted + updated + database failures; every data row is either such a
      row or a rejected one; every failure leaves one error string; every
      persisted row one anchor request. */
  lemma {:induction false} ProcessCountsConserved(store: map<string, Record>, rows: seq<string>, faults: map<nat, string>,
                                                 judge: RowCheck)
    ensures var r := Process(store, rows, faults, judge);
      && r.total == r.inserted + r.updated + r.dbFailed
      && r.total + r.rejected == |rows|
      && |r.errors| == r.rejected + r.dbFailed
      && |r.anchors| == r.inserted + r.updated
    decreases |rows|
  {
    if rows != [] {
      var n := |rows| - 1;
      ProcessCountsConserved(store, rows[..n], faults, judge);
      ApplyCounts(Process(store, rows[..n], faults, judge), judge(rows[n]), n + 2, faults);
    }
  }

  /** Each row moves exactly one of the counters the conservation laws relate. */
  lemma ApplyCounts(r: Run, v: Verdict, rowNumber: nat, faults: map<nat, string>)
    ensures var s := Apply(r, v, rowNumber, faults);
      && s.total - r.total == (s.inserted - r.inserted) + (s.updated - r.updated) + (s.dbFailed - r.dbFailed)
      && s.total + s.rejected == r.total + r.rejected + 1
      && |s.errors| - |r.errors| == (s.rejected - r.rejected) + (s.dbFailed - r.dbFailed)
      && |s.anchors| - |r.anchors| == (s.inserted - r.inserted) + (s.updated - r.updated)
  {
  }

  /** A row with the wrong number of cells adds exactly its mismatch message
      and one failure, and touches neither the table nor the other counters. */
  lemma ColumnMismatchSkipsRow(headers: seq<string>, line: string, joiMessage: seq<(string, string)> -> string)
    ensures Judge(headers, line, joiMessage) == ColumnMismatch <==> |Cells(line)| != |headers|
  {
  }

  /** A row the schema refuses, or one with the wrong number of cells, is
      never persisted and never anchored: it adds one failure and one message. */
  lemma RejectedRowIsSkipped(r: Run, v: Verdict, rowNumber: nat, faults: map<nat, string>)
    requires !v.Accepted?
    ensures var s := Apply(r, v, rowNumber, faults);
      && s.store == r.store && s.anchors == r.anchors && s.total == r.total
      && s.inserted == r.inserted && s.updated == r.updated && s.dbFailed == r.dbFailed
      && s.rejected == r.rejected + 1 && |s.errors| == |r.errors| + 1
  {
  }

  /** The upload never marks a record as anchored: a record is on chain after
      the loop only if it already was before. A record the loop creates is
      off chain. */
  lemma {:induction false} ProcessNeverSetsOnChain(store: map<string, Record>, rows: seq<string>,
                                                  faults: map<nat, string>, judge: RowCheck, k: string)
    requires k in Process(store, rows, faults, judge).store
    ensures Process(store, rows, faults, judge).store[k].onChain ==> k in store && store[k].onChain
    decreases |rows|
  {
    if rows != [] {
      var prev := Process(store, rows[..|rows| - 1], faults, judge);
      if k in prev.store {
        ProcessNeverSetsOnChain(store, rows[..|rows| - 1], faults, judge, k);
      }
    }
  }

  /** A persisted row leaves its certificate under its `certId`, holding that
      row's digest, name, roll, course and institution; an existing record
      keeps its `onChain` flag and counts as updated, a new one starts off
      chain and counts as inserted. */
  lemma PersistedRowIsStored(r: Run, obj: seq<(string, string)>, rowNumber: nat, faults: map<nat, string>)
    requires rowNumber !in faults
    ensures var s := Apply(r, Accepted(obj), rowNumber, faults);
      var certId := Get(obj, "certId");
      var rec := s.store[certId];
      && rec.hash == Some(RowDigest(obj))
      && rec.name == Some(Get(obj, "name")) && rec.roll == Some(Get(obj, "roll"))
      && rec.course == Some(Get(obj, "course")) && rec.institution == Some(Get(obj, "institution"))
      && (certId in r.store ==> rec.onChain == r.store[certId].onChain && s.updated == r.updated + 1 && s.inserted == r.inserted)
      && (certId !in r.store ==> !rec.onChain && s.inserted == r.inserted + 1 && s.updated == r.updated)
      && s.store.Keys == r.store.Keys + {certId}
      && s.anchors == r.anchors + [AnchorRequest(certId, RowDigest(obj), Get(obj, "institution"))]
  {
  }

  /** A database failure counts the row in `total` and `failed` and changes
      nothing else but the error list. */
  lemma FailedRowIsCounted(r: Run, obj: seq<(string, string)>, rowNumber: nat, faults: map<nat, string>)
    requires rowNumber in faults
    ensures var s := Apply(r, Accepted(obj), rowNumber, faults);
      && s.store == r.store && s.anchors == r.anchors
      && s.total == r.total + 1 && s.dbFailed == r.dbFailed + 1
      && s.errors == r.errors + [RowMessage(rowNumber, "Database error - " + faults[rowNumber])]
  {
  }

  // ---------------------------------------------------------------------------
  // The endpoint
  // ---------------------------------------------------------------------------

  datatype UploadResponse =
    | UploadRejected(code: nat, message: string)
    | UploadDone(total: nat, inserted: nat, updated: nat, failed: nat, errors: seq<string>)

  const MaxReportedErrors := 10

  const NoFileMessage := "No CSV file uploaded"
  const TooFewLinesMessage := "CSV file must contain headers and at least one data row"

  function MissingHeadersMessage(missing: seq<string>): string {
    "Missing required headers: " + JoinWith(missing, ", ")
  }

  /** The checks made before any data row is read. */
  function Precheck(file: Option<string>): Option<UploadResponse> {
    if file.None? then Some(UploadRejected(400, NoFileMessage))
    else
      var lines := NonBlankLines(file.value);
      if |lines| < 2 then Some(UploadRejected(400, TooFewLinesMessage))
      else
        var missing := MissingHeaders(Cells(lines[0]));
        if |missing| > 0 then Some(UploadRejected(400, MissingHeadersMessage(missing)))
        else None
  }

  /** `errors.slice(0, 10)`. */
  function FirstErrors(errors: seq<string>): (shown: seq<string>)
    ensures |shown| <= MaxReportedErrors
    ensures shown <= errors
    ensures |errors| <= MaxReportedErrors ==> shown == errors
  {
    if |errors| <= MaxReportedErrors then errors else errors[..MaxReportedErrors]
  }

  /** The anchoring call's later success handler: `onChain` becomes true for
      that certificate when the ledger reports success; nothing else changes. */
  method ConfirmAnchor(store: CertificateStore, certId: string, success: bool)
    modifies store
    ensures success && certId in old(store.records) ==>
      store.records == old(store.records)[certId := old(store.records)[certId].(onChain := true)]
    ensures !(success && certId in old(store.records)) ==> store.records == old(store.records)
  {
    if success && certId in store.records {
      store.records := store.records[certId := store.records[certId].(onChain := true)];
    }
  }

  /** The loop over the data rows, against the table in place; `judge`
      makes the column-count and schema checks of each line. */
  method ProcessRows(store: CertificateStore, dataRows: seq<string>, faults: map<nat, string>, judge: RowCheck)
    returns (total: nat, inserted: nat, updated: nat, failed: nat, errors: seq<string>, anchors: seq<AnchorRequest>)
    modifies store
    ensures var r := Process(old(store.records), dataRows, faults, judge);
      && store.records == r.store
      && total == r.total && inserted == r.inserted && updated == r.updated
      && failed == r.rejected + r.dbFailed && errors == r.errors && anchors == r.anchors
  {
    ghost var start := store.records;
    ghost var run := Process(start, [], faults, judge);
    ghost var rejected, dbFailed := 0, 0;
    total, inserted, updated, failed := 0, 0, 0, 0;
    errors, anchors := [], [];
    var i := 0;
    while i < |dataRows|
      invariant 0 <= i <= |dataRows|
      invariant run == Process(start, dataRows[..i], faults, judge)
      invariant store.records == run.store
      invariant total == run.total && inserted == run.inserted && updated == run.updated
      invariant rejected == run.rejected && dbFailed == run.dbFailed && failed == rejected + dbFailed
      invariant errors == run.errors && anchors == run.anchors
    {
      assert dataRows[..i + 1][..i] == dataRows[..i];
      var rowNumber := i + 2;
      var verdict := judge(dataRows[i]);
      run := Apply(run, verdict, rowNumber, faults);
      match verdict {
        case ColumnMismatch =>
          errors := errors + [RowMessage(rowNumber, "Column count mismatch")];
          failed, rejected := failed + 1, rejected + 1;
        case Refused(message) =>
          errors := errors + [RowMessage(rowNumber, message)];
          failed, rejected := failed + 1, rejected + 1;
        case Accepted(obj) =>
          total := total + 1;
          var certId := Get(obj, "certId");
          var hash := RowDigest(obj);
          if rowNumber in faults {
            errors := errors + [RowMessage(rowNumber, "Database error - " + faults[rowNumber])];
            failed, dbFailed := failed + 1, dbFailed + 1;
          } else {
            if certId in store.records {
              var existing := store.records[certId];
              store.records := store.records[certId := existing.(name := Some(Get(obj, "name")),
                roll := Some(Get(obj, "roll")), course := Some(Get(obj, "course")),
                institution := Some(Get(obj, "institution")), hash := Some(hash))];
              updated := updated + 1;
            } else {
              store.records := store.records[certId := Record(Some(Get(obj, "name")), Some(Get(obj, "roll")),
                Some(Get(obj, "course")), Some(Get(obj, "institution")), Some(hash), false, None, false)];
              inserted := inserted + 1;
            }
            // Not awaited: the request is recorded; ConfirmAnchor models its success handler.
            anchors := anchors + [AnchorRequest(certId, hash, Get(obj, "institution"))];
          }
      }
      i := i + 1;
    }
    assert dataRows[..|dataRows|] == dataRows;
    assert store.records == run.store;
  }

  /** The loop's run over an upload that passed the checks: the first
      non-blank line gives the headers, the others are the data rows. */
  function UploadRun(store: map<string, Record>, file: string, faults: map<nat, string>,
                     joiMessage: seq<(string, string)> -> string): Run
    requires |NonBlankLines(file)| >= 1
  {
    var lines := NonBlankLines(file);
    Process(store, lines[1..], faults, RowJudge(Cells(lines[0]), joiMessage))
  }

  /** The response of a completed upload: `failed` sums the rejected rows and
      the database failures, and at most ten error strings are reported. */
  function Summary(r: Run): UploadResponse {
    UploadDone(r.total, r.inserted, r.updated, r.rejected + r.dbFailed, FirstErrors(r.errors))
  }

  /** `bulkUpload`: the request checks, then the loop and the summary. */
  method BulkUpload(store: CertificateStore, file: Option<string>, faults: map<nat, string>,
                    joiMessage: seq<(string, string)> -> string)
    returns (resp: UploadResponse, anchors: seq<AnchorRequest>)
    modifies store
    ensures Precheck(file).Some? ==> resp == Precheck(file).value && anchors == [] && store.records == old(store.records)
    ensures Precheck(file).None? ==>
      && store.records == UploadRun(old(store.records), file.value, faults, joiMessage).store
      && anchors == UploadRun(old(store.records), file.value, faults, joiMessage).anchors
      && resp == Summary(UploadRun(old(store.records), file.value, faults, joiMessage))
  {
    anchors := [];
    var rejection := Precheck(file);
    if rejection.Some? {
      return rejection.value, anchors;
    }
    resp, anchors := ProcessUpload(store, file.value, faults, joiMessage);
  }

  /** The part of `bulkUpload` after the checks: the header line, the loop
      over the data rows, and the summary. */
  method ProcessUpload(store: CertificateStore, file: string, faults: map<nat, string>,
                       joiMessage: seq<(string, string)> -> string)
    returns (resp: UploadResponse, anchors: seq<AnchorRequest>)
    requires |NonBlankLines(file)| >= 1
    modifies store
    ensures store.records == UploadRun(old(store.records), file, faults, joiMessage).store
    ensures anchors == UploadRun(old(store.records), file, faults, joiMessage).anchors
    ensures resp == Summary(UploadRun(old(store.records), file, faults, joiMessage))
  {
    var lines := NonBlankLines(file);
    var total, inserted, updated, failed, errors;
    total, inserted, updated, failed, errors, anchors := ProcessRows(store, lines[1..], faults, RowJudge(Cells(lines[0]), joiMessage));
    resp := UploadDone(total, inserted, updated, failed, FirstErrors(errors));
  }

  /** The reported error list is capped at ten while `failed` counts every
      failure. */
  lemma ReportedErrorsCapped(file: string, store: map<string, Record>, faults: map<nat, string>,
                             joiMessage: seq<(string, string)> -> string)
    requires Precheck(Some(file)).None?
    ensures var lines := NonBlankLines(file);
      var r := Process(store, lines[1..], faults, RowJudge(Cells(lines[0]), joiMessage));
      var shown := FirstErrors(r.errors);
      && r.rejected + r.dbFailed == |r.errors|
      && |shown| == (if |r.errors| <= MaxReportedErrors then |r.errors| else MaxReportedErrors)
      && shown <= r.errors
  {
    var lines := NonBlankLines(file);
    ProcessCountsConserved(store, lines[1..], faults, RowJudge(Cells(lines[0]), joiMessage));
  }

  /** Too few lines or a missing mandatory header stop the upload with a 400
      that names the missing headers in their fixed order. */
  lemma PrecheckRejections(file: string)
    ensures |NonBlankLines(file)| < 2 ==>
      Precheck(Some(file)) == Some(UploadRejected(400, TooFewLinesMessage))
    ensures |NonBlankLines(file)| >= 2 ==>
      var missing := MissingHeaders(Cells(NonBlankLines(file)[0]));
      (Precheck(Some(file)).None? <==> missing == []) &&
      (missing != [] ==> Precheck(Some(file)) == Some(UploadRejected(400, MissingHeadersMessage(missing))))
  {
  }
}
