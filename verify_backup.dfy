/** Certificate verification as the earlier backend variant does it: the
    extraction service's failure is a 503, the blacklist table is consulted
    before the certificate lookup, and a record's own blacklist flag makes it
    Suspicious whatever the ledger says. Every path appends exactly one audit
    entry whose result is the lower-case verdict and whose reasons are the
    returned reasons. */
module BackupVerify {
  import opened Common
  import opened Reconciler
  import opened BackupStore

  /** `blockchainClient.verifyHash`: a successful call with the contract's
      answer, an unsuccessful one, or one that raised. */
  datatype LedgerResult = Succeeded(isValid: bool) | Unsuccessful | Threw

  datatype Status = Valid | Suspicious | Invalid

  function LowerName(s: Status): string {
    match s
    case Valid => "valid"
    case Suspicious => "suspicious"
    case Invalid => "invalid"
  }

  /** A `Log` row: the requesting user, the extracted identifier, the
      extraction service's answer, the result and the reasons. */
  datatype LogEntry = LogEntry(userId: Option<int>, certId: Option<string>, ocrData: Option<Extracted>,
                               result: string, reasons: seq<string>)

  /** The certificate part of a response: the record under its `certId`. */
  datatype Shown = Shown(certId: string, record: Record)

  datatype Response = Response(code: nat, status: Status, reasons: seq<string>, certificate: Option<Shown>)

  /** The blacklist query `value IN (certId, course)`: an entry matches the
      identifier, or the course when one was extracted. */
  predicate Listed(entries: seq<BlacklistEntry>, certId: string, course: Option<string>) {
    exists i :: 0 <= i < |entries| && (entries[i].value == certId || (course.Some? && entries[i].value == course.value))
  }

  /** What the ledger step contributes: the status, and the reason when the
      contract answered `false` or could not be asked. */
  function LedgerStep(ledger: LedgerResult): (Status, seq<string>) {
    if ledger == Succeeded(false) then (Suspicious, [HashFailedReason])
    else if ledger.Succeeded? then (Valid, [])
    else (Valid, [UnavailableReason])
  }

  /** The final status and reasons: the ledger step, then the record's own
      blacklist flag. */
  function FinalVerdict(ledger: LedgerResult, blacklisted: bool): (Status, seq<string>) {
    var step := LedgerStep(ledger);
    if blacklisted then (Suspicious, step.1 + [FlaggedReason]) else step
  }

  const UnavailableReason := "Blockchain verification unavailable - certificate appears valid in database"
  const HashFailedReason := "Blockchain hash verification failed"
  const FlaggedReason := "Certificate is marked as blacklisted"
  const ServerErrorReason := "Internal server error during verification"
  const NoFileReason := "No file uploaded"
  const AiUnavailableReason := "AI service unavailable"
  const NoIdReason := "Certificate ID not found in document"
  const BlacklistedReason := "Certificate or institution is blacklisted"
  const NotFoundReason := "Certificate ID not found in database"

  /** What one request answers and logs. `ai` is the extraction service's
      answer (`None` when the call fails), `blacklist` the blacklist table and
      `store` the certificate table (`None` when that query raises), `ledger`
      the ledger's answer for the recomputed digest. */
  function Decide(userId: Option<int>, hasFile: bool, ai: Option<Extracted>, blacklist: Option<seq<BlacklistEntry>>,
                  store: Option<map<string, Record>>, ledger: LedgerResult): (Response, LogEntry)
  {
    if !hasFile then
      (Response(400, Invalid, [NoFileReason], None), LogEntry(userId, None, None, "invalid", [NoFileReason]))
    else if ai.None? then
      (Response(503, Invalid, [AiUnavailableReason], None), LogEntry(userId, None, None, "invalid", [AiUnavailableReason]))
    else
      var ex := ai.value;
      if !Truthy(ex.certId) then
        (Response(400, Invalid, [NoIdReason], None), LogEntry(userId, ex.certId, ai, "invalid", [NoIdReason]))
      else if blacklist.None? then
        (Response(500, Invalid, [ServerErrorReason], None), LogEntry(userId, ex.certId, ai, "invalid", [ServerErrorReason]))
      else if Listed(blacklist.value, ex.certId.value, ex.course) then
        (Response(200, Suspicious, [BlacklistedReason], None), LogEntry(userId, ex.certId, ai, "suspicious", [BlacklistedReason]))
      else if store.None? then
        (Response(500, Invalid, [ServerErrorReason], None), LogEntry(userId, ex.certId, ai, "invalid", [ServerErrorReason]))
      else if ex.certId.value !in store.value then
        (Response(404, Invalid, [NotFoundReason], None), LogEntry(userId, ex.certId, ai, "invalid", [NotFoundReason]))
      else
        var rec := store.value[ex.certId.value];
        var mismatches := Mismatches(StoredFields(rec.name, rec.roll, rec.course), ex);
        if mismatches.None? then
          (Response(500, Invalid, [ServerErrorReason], None), LogEntry(userId, ex.certId, ai, "invalid", [ServerErrorReason]))
        else if mismatches.value != [] then
          (Response(200, Suspicious, mismatches.value, Some(Shown(ex.certId.value, rec))), LogEntry(userId, ex.certId, ai, "suspicious", mismatches.value))
        else
          var verdict := FinalVerdict(ledger, rec.blacklisted);
          (Response(200, verdict.0, verdict.1, Some(Shown(ex.certId.value, rec))), LogEntry(userId, ex.certId, ai, LowerName(verdict.0), verdict.1))
  }

  /** The `Log` table the handler appends to. */
  class AuditLog {
    var entries: seq<LogEntry>

    constructor ()
      ensures entries == []
    {
      entries := [];
    }

    method Append(e: LogEntry)
      modifies this
      ensures entries == old(entries) + [e]
    {
      entries := entries + [e];
    }
  }

  /** `verifyCertificate`: the log record is filled in step by step, appended
      once on whichever path ends the request, and the verdict returned. The
      ledger's answer for the record found is the parameter `ledger`. */
  method VerifyCertificate(log: AuditLog, userId: Option<int>, hasFile: bool, ai: Option<Extracted>,
                           blacklist: Option<seq<BlacklistEntry>>, store: Option<map<string, Record>>, ledger: LedgerResult)
    returns (resp: Response)
    modifies log
    ensures resp == Decide(userId, hasFile, ai, blacklist, store, ledger).0
    ensures log.entries == old(log.entries) + [Decide(userId, hasFile, ai, blacklist, store, ledger).1]
  {
    var logData := LogEntry(userId, None, None, "", []);
    if !hasFile {
      log.Append(logData.(result := "invalid", reasons := [NoFileReason]));
      return Response(400, Invalid, [NoFileReason], None);
    }
    if ai.None? {
      log.Append(logData.(result := "invalid", reasons := [AiUnavailableReason]));
      return Response(503, Invalid, [AiUnavailableReason], None);
    }
    logData := logData.(ocrData := ai);
    var extracted := ai.value;
    logData := logData.(certId := extracted.certId);
    if !Truthy(extracted.certId) {
      log.Append(logData.(result := "invalid", reasons := [NoIdReason]));
      return Response(400, Invalid, [NoIdReason], None);
    }
    var certId := extracted.certId.value;
    if blacklist.None? {
      log.Append(logData.(result := "invalid", reasons := [ServerErrorReason]));
      return Response(500, Invalid, [ServerErrorReason], None);
    }
    if Listed(blacklist.value, certId, extracted.course) {
      log.Append(logData.(result := "suspicious", reasons := [BlacklistedReason]));
      return Response(200, Suspicious, [BlacklistedReason], None);
    }
    if store.None? {
      log.Append(logData.(result := "invalid", reasons := [ServerErrorReason]));
      return Response(500, Invalid, [ServerErrorReason], None);
    }
    if certId !in store.value {
      log.Append(logData.(result := "invalid", reasons := [NotFoundReason]));
      return Response(404, Invalid, [NotFoundReason], None);
    }
    var record := store.value[certId];
    var mismatches := Mismatches(StoredFields(record.name, record.roll, record.course), extracted);
    if mismatches.None? {
      log.Append(logData.(result := "invalid", reasons := [ServerErrorReason]));
      return Response(500, Invalid, [ServerErrorReason], None);
    }
    if |mismatches.value| > 0 {
      log.Append(logData.(result := "suspicious", reasons := mismatches.value));
      return Response(200, Suspicious, mismatches.value, Some(Shown(certId, record)));
    }
    var finalStatus, reasons := CombineVerdict(ledger, record.blacklisted);
    log.Append(logData.(result := LowerName(finalStatus), reasons := reasons));
    resp := Response(200, finalStatus, reasons, Some(Shown(certId, record)));
  }

  /** The end of the handler: the ledger's answer read into
      `blockchainVerification`, then the status and reasons built up from it
      and from the record's own flag. */
  method CombineVerdict(ledger: LedgerResult, blacklisted: bool) returns (finalStatus: Status, reasons: seq<string>)
    ensures (finalStatus, reasons) == FinalVerdict(ledger, blacklisted)
  {
    var blockchainVerification: Option<bool> := None;
    if ledger.Succeeded? {
      blockchainVerification := Some(ledger.isValid);
    }
    finalStatus := Valid;
    reasons := [];
    if blockchainVerification == Some(false) {
      finalStatus := Suspicious;
      reasons := reasons + [HashFailedReason];
    } else if blockchainVerification.None? {
      reasons := reasons + [UnavailableReason];
    }
    assert reasons == LedgerStep(ledger).1;
    if blacklisted {
      finalStatus := Suspicious;
      reasons := reasons + [FlaggedReason];
    }
  }

  // ---------------------------------------------------------------------------
  // Properties of the decision
  // ---------------------------------------------------------------------------

  /** The log entry always records the returned reasons, and a 200's result is
      the lower-case status. */
  lemma LogRecordsResponse(userId: Option<int>, hasFile: bool, ai: Option<Extracted>, blacklist: Option<seq<BlacklistEntry>>,
                           store: Option<map<string, Record>>, ledger: LedgerResult)
    ensures var (r, e) := Decide(userId, hasFile, ai, blacklist, store, ledger);
      && e.reasons == r.reasons && e.result == LowerName(r.status) && e.userId == userId
      && (r.code != 200 ==> r.status == Invalid && r.certificate.None?)
  {
    if hasFile && ai.Some? && Truthy(ai.value.certId) && blacklist.Some? && !Listed(blacklist.value, ai.value.certId.value, ai.value.course)
       && store.Some? && ai.value.certId.value in store.value {
      var rec := store.value[ai.value.certId.value];
      var mismatches := Mismatches(StoredFields(rec.name, rec.roll, rec.course), ai.value);
      if mismatches.Some? && mismatches.value == [] {
        var verdict := FinalVerdict(ledger, rec.blacklisted);
        assert Decide(userId, hasFile, ai, blacklist, store, ledger).1.result == LowerName(verdict.0);
      }
    }
  }

  /** A blacklisted identifier or course is Suspicious without a certificate,
      whatever the certificate table and the ledger hold: the blacklist is
      decided before the lookup. */
  lemma BlacklistDecidesBeforeLookup(userId: Option<int>, ex: Extracted, entries: seq<BlacklistEntry>,
                                     store1: Option<map<string, Record>>, store2: Option<map<string, Record>>,
                                     ledger1: LedgerResult, ledger2: LedgerResult)
    requires Truthy(ex.certId) && Listed(entries, ex.certId.value, ex.course)
    ensures Decide(userId, true, Some(ex), Some(entries), store1, ledger1) == Decide(userId, true, Some(ex), Some(entries), store2, ledger2)
    ensures Decide(userId, true, Some(ex), Some(entries), store1, ledger1).0 ==
      Response(200, Suspicious, [BlacklistedReason], None)
  {
  }

  /** A record whose own flag is set is Suspicious whatever the ledger says:
      once it passes the blacklist table, is found and agrees with the
      document, the answer is a 200 Suspicious showing the record, and the
      flag's reason comes after the ledger's. */
  lemma FlaggedRecordIsSuspicious(userId: Option<int>, ex: Extracted, entries: seq<BlacklistEntry>,
                                  records: map<string, Record>, ledger: LedgerResult)
    requires Truthy(ex.certId) && !Listed(entries, ex.certId.value, ex.course)
    requires ex.certId.value in records && records[ex.certId.value].blacklisted
    requires var rec := records[ex.certId.value]; Agrees(StoredFields(rec.name, rec.roll, rec.course), ex)
    ensures var r := Decide(userId, true, Some(ex), Some(entries), Some(records), ledger).0;
      && r.code == 200 && r.status == Suspicious
      && r.reasons == LedgerStep(ledger).1 + [FlaggedReason]
      && r.certificate == Some(Shown(ex.certId.value, records[ex.certId.value]))
  {
    var rec := records[ex.certId.value];
    MismatchesEmptyIffAgrees(StoredFields(rec.name, rec.roll, rec.course), ex);
  }

  /** The ledger's answer counts only when the call succeeded: an unsuccessful
      call and one that raised decide alike. */
  lemma LedgerFailureIsUnavailable(blacklisted: bool)
    ensures FinalVerdict(Unsuccessful, blacklisted) == FinalVerdict(Threw, blacklisted)
    ensures FinalVerdict(Unsuccessful, false) ==
      (Valid, [UnavailableReason])
  {
  }

  /** A Valid verdict means: not blacklisted by the table or by the record's
      own flag, the record is stored, the fields agree, and the ledger did not
      answer `false`. */
  lemma ValidMeansClean(userId: Option<int>, hasFile: bool, ai: Option<Extracted>, blacklist: Option<seq<BlacklistEntry>>,
                        store: Option<map<string, Record>>, ledger: LedgerResult)
    requires Decide(userId, hasFile, ai, blacklist, store, ledger).0.status == Valid
    ensures hasFile && ai.Some? && Truthy(ai.value.certId) && blacklist.Some? && store.Some?
    ensures !Listed(blacklist.value, ai.value.certId.value, ai.value.course)
    ensures var rec := store.value[ai.value.certId.value];
      && !rec.blacklisted
      && Agrees(StoredFields(rec.name, rec.roll, rec.course), ai.value)
      && ledger != Succeeded(false)
  {
    var ex := ai.value;
    var rec := store.value[ex.certId.value];
    MismatchesEmptyIffAgrees(StoredFields(rec.name, rec.roll, rec.course), ex);
  }
}
