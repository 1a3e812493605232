/** Certificate verification as the backend's verify controller does it: a
    chain of checks on the uploaded document (file present, identifier
    extracted, record found, fields agreeing, ledger answer), each ending the
    request with one verdict and exactly one appended audit log entry. When
    the extraction service cannot be reached a fixed mock extraction stands in
    for its answer. */
module Verify {
  import opened Common
  import opened Hashing
  import opened Reconciler
  import CertificateIngest
  import CertificateTable

  /** The stored certificate as this handler reads it; any column may be null. */
  datatype VerifyRecord = VerifyRecord(
    certificateId: Option<string>,
    studentName: Option<string>,
    rollNumber: Option<string>,
    course: Option<string>,
    issueDate: Option<string>,
    grade: Option<string>)

  function Compared(r: VerifyRecord): StoredFields {
    StoredFields(r.studentName, r.rollNumber, r.course)
  }

  /** The ledger service's reply: the `verified` property of its answer
      (absent when the answer has none), or no answer at all. */
  datatype LedgerReply = Replied(verified: Option<JsValue>) | Unreachable

  datatype Status = Valid | Suspicious | Invalid

  /** The extraction used when the extraction service fails. */
  const MockExtraction := Extracted(Some("MOCK-CERT-001"), Some("Mock Student"), Some("MOCK123"), Some("Mock Course"))

  function OptionalText(o: Option<string>): JsonScalar {
    if o.Some? then JStr(o.value) else JNull
  }

  /** The digest verification recomputes, over
      {certificateId, studentName, rollNumber, course, issueDate, grade};
      `issueIso` is the stored issue date in ISO form. */
  function VerifyDigest(r: VerifyRecord, issueIso: string): Digest {
    Sha256([("certificateId", OptionalText(r.certificateId)), ("studentName", OptionalText(r.studentName)),
            ("rollNumber", OptionalText(r.rollNumber)), ("course", OptionalText(r.course)),
            ("issueDate", JStr(issueIso)), ("grade", OptionalText(r.grade))])
  }

  /** The audit entry's status, the mismatches it records and the digest it
      records, for the requesting user. */
  datatype LogEntry = LogEntry(userId: Option<int>, status: string, mismatches: seq<string>, computedHash: Option<Digest>)

  datatype Response = Response(code: nat, status: Status, reasons: seq<string>, certificate: Option<VerifyRecord>)

  const HashFailedReason := "Blockchain hash verification failed"
  const UnavailableReason := "Blockchain verification unavailable"
  const NoFileReason := "No file uploaded"
  const NoIdReason := "Certificate ID not found in document"
  const NotFoundReason := "Certificate ID not found in database"

  /** The final status and reasons once the fields agree. */
  function LedgerVerdict(reply: LedgerReply): (Status, seq<string>) {
    var v := if reply.Unreachable? then Some(JsNull) else reply.verified;
    if v == Some(JsBool(false)) then (Suspicious, [HashFailedReason])
    else if v == Some(JsNull) then (Valid, [UnavailableReason])
    else (Valid, [])
  }

  function UpperName(s: Status): string {
    match s
    case Valid => "VALID"
    case Suspicious => "SUSPICIOUS"
    case Invalid => "INVALID"
  }

  const ServerError := Response(500, Invalid, ["Internal server error during verification"], None)

  /** What one request answers and logs. `ai` is the extraction service's
      answer (`None` when the call fails), `store` the certificate table
      (`None` when the lookup raises) and `ledger` the ledger's reply for the
      recomputed digest. */
  function Decide(userId: Option<int>, hasFile: bool, ai: Option<Extracted>,
                  store: Option<map<string, VerifyRecord>>, ledger: LedgerReply): (Response, LogEntry)
  {
    if !hasFile then
      (Response(400, Invalid, [NoFileReason], None), LogEntry(userId, "FAILED", [], None))
    else
      var ex := if ai.Some? then ai.value else MockExtraction;
      if !Truthy(ex.certId) then
        (Response(400, Invalid, [NoIdReason], None), LogEntry(userId, "FAILED", [], None))
      else if store.None? then
        (ServerError, LogEntry(userId, "ERROR", [], None))
      else if ex.certId.value !in store.value then
        (Response(404, Invalid, [NotFoundReason], None), LogEntry(userId, "INVALID", [], None))
      else
        var rec := store.value[ex.certId.value];
        var mismatches := Mismatches(Compared(rec), ex);
        if mismatches.None? then
          (ServerError, LogEntry(userId, "ERROR", [], None))
        else if mismatches.value != [] then
          (Response(200, Suspicious, mismatches.value, Some(rec)), LogEntry(userId, "SUSPICIOUS", mismatches.value, None))
        else if rec.issueDate.None? then
          (ServerError, LogEntry(userId, "ERROR", [], None))
        else
          var verdict := LedgerVerdict(ledger);
          (Response(200, verdict.0, verdict.1, Some(rec)),
           LogEntry(userId, UpperName(verdict.0), [], Some(VerifyDigest(rec, rec.issueDate.value))))
  }

  /** The `Log` table the handler appends to. */
  class AuditLog {
    var entries: seq<LogEntry>

    constructor ()
      ensures entries == []
    {
      entries := [];
    }

    method Append(e: LogEntry)
      modifies this
      ensures entries == old(entries) + [e]
    {
      entries := entries + [e];
    }
  }

  /** `verifyCertificate`: walks the checks in order, appends one entry to the
      audit log on every path, and answers with the verdict. */
  method VerifyCertificate(log: AuditLog, userId: Option<int>, hasFile: bool, ai: Option<Extracted>,
                           store: Option<map<string, VerifyRecord>>, ledger: LedgerReply)
    returns (resp: Response)
    modifies log
    ensures resp == Decide(userId, hasFile, ai, store, ledger).0
    ensures log.entries == old(log.entries) + [Decide(userId, hasFile, ai, store, ledger).1]
  {
    if !hasFile {
      log.Append(LogEntry(userId, "FAILED", [], None));
      return Response(400, Invalid, [NoFileReason], None);
    }
    var extracted := MockExtraction;
    if ai.Some? {
      extracted := ai.value;
    }
    if !Truthy(extracted.certId) {
      log.Append(LogEntry(userId, "FAILED", [], None));
      return Response(400, Invalid, [NoIdReason], None);
    }
    if store.None? {
      log.Append(LogEntry(userId, "ERROR", [], None));
      return ServerError;
    }
    if extracted.certId.value !in store.value {
      log.Append(LogEntry(userId, "INVALID", [], None));
      return Response(404, Invalid, [NotFoundReason], None);
    }
    var record := store.value[extracted.certId.value];
    var mismatches := Mismatches(Compared(record), extracted);
    if mismatches.None? {
      log.Append(LogEntry(userId, "ERROR", [], None));
      return ServerError;
    }
    if |mismatches.value| > 0 {
      log.Append(LogEntry(userId, "SUSPICIOUS", mismatches.value, None));
      return Response(200, Suspicious, mismatches.value, Some(record));
    }
    if record.issueDate.None? {
      log.Append(LogEntry(userId, "ERROR", [], None));
      return ServerError;
    }
    var computedHash := VerifyDigest(record, record.issueDate.value);
    var finalStatus, reasons := ReadLedger(ledger);
    log.Append(LogEntry(userId, UpperName(finalStatus), [], Some(computedHash)));
    resp := Response(200, finalStatus, reasons, Some(record));
  }

  /** The end of the handler: `verified` read from the ledger's reply (null
      when the ledger is not configured), then the status and reasons built
      up from it. */
  method ReadLedger(ledger: LedgerReply) returns (finalStatus: Status, reasons: seq<string>)
    ensures (finalStatus, reasons) == LedgerVerdict(ledger)
  {
    var verified := if ledger.Unreachable? then Some(JsNull) else ledger.verified;
    finalStatus := Valid;
    reasons := [];
    if verified == Some(JsBool(false)) {
      finalStatus := Suspicious;
      reasons := reasons + [HashFailedReason];
    } else if verified == Some(JsNull) {
      finalStatus := Valid;
      reasons := reasons + [UnavailableReason];
    }
    assert reasons == LedgerVerdict(ledger).1;
  }

  // ---------------------------------------------------------------------------
  // Properties of the decision
  // ---------------------------------------------------------------------------

  /** A failed extraction is never a verdict by itself: the request is decided
      exactly as if the service had returned the mock extraction. */
  lemma ExtractionFailureUsesMock(userId: Option<int>, hasFile: bool, store: Option<map<string, VerifyRecord>>, ledger: LedgerReply)
    ensures Decide(userId, hasFile, None, store, ledger) == Decide(userId, hasFile, Some(MockExtraction), store, ledger)
  {
  }

  /** The ledger's reply is Suspicious only when it is exactly `false`; a
      missing ledger counts as Valid with a note, and any other reply
      (including one without a `verified` property) as Valid without reasons. */
  lemma LedgerMapping(reply: LedgerReply)
    ensures LedgerVerdict(reply).0 == Suspicious <==> reply == Replied(Some(JsBool(false)))
    ensures LedgerVerdict(reply).0 != Invalid
    ensures reply == Unreachable ==> LedgerVerdict(reply) == (Valid, [UnavailableReason])
    ensures reply.Replied? && reply.verified != Some(JsBool(false)) && reply.verified != Some(JsNull) ==>
      LedgerVerdict(reply) == (Valid, [])
  {
  }

  /** With any mismatch the answer is Suspicious with exactly the mismatch
      list, whatever the ledger would have said. */
  lemma MismatchDecidesWithoutLedger(userId: Option<int>, ai: Option<Extracted>, records: map<string, VerifyRecord>,
                                     ledger1: LedgerReply, ledger2: LedgerReply)
    requires var ex := if ai.Some? then ai.value else MockExtraction;
      Truthy(ex.certId) && ex.certId.value in records &&
      Mismatches(Compared(records[ex.certId.value]), ex).Some? && Mismatches(Compared(records[ex.certId.value]), ex).value != []
    ensures Decide(userId, true, ai, Some(records), ledger1) == Decide(userId, true, ai, Some(records), ledger2)
    ensures var ex := if ai.Some? then ai.value else MockExtraction;
      var r := Decide(userId, true, ai, Some(records), ledger1).0;
      r.status == Suspicious && r.reasons == Mismatches(Compared(records[ex.certId.value]), ex).value
  {
  }

  /** A Valid verdict means the document's identifier is stored, every
      extracted field agrees with the stored one, and the ledger did not
      answer `false`. */
  lemma ValidMeansAgreement(userId: Option<int>, hasFile: bool, ai: Option<Extracted>,
                            store: Option<map<string, VerifyRecord>>, ledger: LedgerReply)
    requires Decide(userId, hasFile, ai, store, ledger).0.status == Valid
    ensures var ex := if ai.Some? then ai.value else MockExtraction;
      && hasFile && store.Some? && Truthy(ex.certId) && ex.certId.value in store.value
      && Agrees(Compared(store.value[ex.certId.value]), ex)
      && ledger != Replied(Some(JsBool(false)))
  {
    var ex := if ai.Some? then ai.value else MockExtraction;
    if hasFile && Truthy(ex.certId) && store.Some? && ex.certId.value in store.value {
      MismatchesEmptyIffAgrees(Compared(store.value[ex.certId.value]), ex);
    }
  }

  /** The response code and the logged status always correspond: a 500 is
      logged as ERROR, a 404 as INVALID, a 400 as FAILED, and a 200 with the
      upper-case verdict. */
  lemma LogStatusMatchesResponse(userId: Option<int>, hasFile: bool, ai: Option<Extracted>,
                                 store: Option<map<string, VerifyRecord>>, ledger: LedgerReply)
    ensures var (r, e) := Decide(userId, hasFile, ai, store, ledger);
      && e.userId == userId
      && (r.code == 500 <==> e.status == "ERROR")
      && (r.code == 404 <==> e.status == "INVALID")
      && (r.code == 400 <==> e.status == "FAILED")
      && (r.code == 200 <==> e.status == UpperName(r.status) && r.status != Invalid)
      && (r.code != 200 ==> r.status == Invalid && r.certificate.None?)
  {
    var ex := if ai.Some? then ai.value else MockExtraction;
    if hasFile && Truthy(ex.certId) && store.Some? && ex.certId.value in store.value {
      var rec := store.value[ex.certId.value];
      var mismatches := Mismatches(Compared(rec), ex);
      if mismatches.Some? && mismatches.value == [] && rec.issueDate.Some? {
        var verdict := LedgerVerdict(ledger);
        assert verdict.0 != Invalid;
        assert Decide(userId, hasFile, ai, store, ledger).1.status == UpperName(verdict.0);
      }
    }
  }

  /** The digest bulk upload anchors and the digest verification recomputes
      are taken over different fields, so for every record the two never
      coincide: a record anchored by the upload cannot pass the ledger check. */
  lemma IngestAndVerifyDigestsDiffer(c: CertificateTable.Certificate, r: VerifyRecord, issueIso: string)
    ensures CertificateIngest.IngestDigest(c) != VerifyDigest(r, issueIso)
  {
    assert CertificateIngest.IngestDigest(c).members[0].0 == "roll_number";
    assert VerifyDigest(r, issueIso).members[0].0 == "certificateId";
  }
}
