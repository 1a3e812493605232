# Academic certificate backend — a Dafny model

This project models the certificate backend of the academia system. Institutions
bulk-upload certificate records from CSV files. Anyone can verify an uploaded
certificate document against the stored record and a ledger of anchored
digests. Administrators look at statistics, logs and certificates and maintain
a blacklist. Every request passes through a row of guards first.

The model covers four parts. Each one follows the code in its own form.

- **Bulk ingestion.** This covers `bulkUpload` of the current backend and of the
  earlier variant kept in `temp_backup/`. Both are imperative loops that update
  counters and a table. Here they are methods on a table class (`CertificateTable.Table`,
  `BackupStore.CertificateStore`). Each is proved equal to a fold function over
  the rows (`CertificateIngest.PersistAll`, `BackupIngest.Process`), and the
  promised properties are lemmas about those folds: counts conserved, last
  write wins, idempotent re-upload, untouched columns, and the 10-error cap.
- **Verification.** This covers `verifyCertificate` in both variants. The
  decision chain is a pure function (`Decide`) returning the response and the
  one audit entry. The handler is a method that appends exactly that entry to
  an `AuditLog` object. The field comparison both variants share is the
  `Reconciler` module.
- **Admin operations.** `getStats` has its counting loops as methods, and the
  top-5 ranking is an insertion sort with its sortedness and permutation proved.
  `getLogs` and `getCertificates` are filter-and-page pipelines. `toggleBlacklist`
  changes one row and appends one log. The earlier variant's `addToBlacklist`,
  `removeFromBlacklist`, `deleteUser` and `getLogs` are methods on table classes
  with their invariants (unique blacklist pairs, unique e-mails).
- **Request guards.** These are `login`/`register`, the body/file validators, the
  security middleware (size limit, IP list, User-Agent screen, object sanitiser,
  CORS origin, rate-limit exemption) and the two role guards. They are total
  functions over abstract request data, and each one's pass/deny condition is
  stated as an if-and-only-if.

External services and libraries are parameters, never computed:
- the CSV parser's rows;
- the date parser (`toIso`, `parseDate`);
- the extraction service's answer;
- the store's answers and failures (`faults` maps a row number to a database
  error message; `None` stands for a failed read);
- the ledger's answer;
- the Joi schema outcome;
- `validator.escape`, `xss` and `validator.isEmail`;
- the clock (`now`).

SHA-256 over `JSON.stringify`, bcrypt and JWT signing are symbolic
constructors (`Hashing.Sha256`, `Users.Bcrypt`, `Auth.Jwt`). A digest is
therefore equal to another exactly when the hashed member lists are equal.

JavaScript semantics that matter are written out:
- truthiness of optional strings (`Common.Truthy`);
- `trim` over the JavaScript whitespace set;
- ASCII `toLowerCase`;
- `includes`, `split`, `join`, and `slice` with clamped indices;
- `parseInt(q) || default`, where 0 takes the default;
- `Math.ceil` division;
- insertion-ordered objects as association lists.

### Behaviours of the code the model follows

- An upload's `total` is not the number of CSV rows. The current
  `bulkUpload` sets `total` to the number of rows that passed validation, and
  starts `failed` at the number of validation errors
  (backend/controllers/certificateController.js:112-116). For a file with one
  good row and one row without a name, the summary is total 1, inserted 1,
  failed 1 (`CertificateIngest.CompletedSummaryConserved`).
- There is no single canonical digest. Ingestion
  hashes `{roll_number, student_name, course_name, issue_date, grade}`, while
  verification hashes `{certificateId, studentName, rollNumber, course,
  issueDate, grade}`. A record anchored by the upload therefore never matches
  the digest verification recomputes (`Verify.IngestAndVerifyDigestsDiffer`).
- Field comparison ignores case but not surrounding whitespace. Both
  verification handlers lower-case the name and course but do not trim, and
  compare the roll number exactly (`Reconciler`).
- The current verification handler treats any ledger answer other than `false`
  or a thrown error as Valid. An answer without a `verified` property is also
  Valid (`Verify.LedgerMapping`).
- Re-uploading a batch is idempotent only for rows that carry a roll number.
  Rows without one are inserted again every time, because they cannot be looked up
  (`CertificateIngest.ReingestIsIdempotent` requires every row to have one).
- The earlier verification handler queries the blacklist with `value IN
  (certId, course)`. An undefined course matches nothing, so only the identifier
  can match then (`BackupVerify.Listed`).
- The current `verifyController.js` loads the model definitions
  (`require('../models/Certificate')`) rather than the initialised models, so
  `Certificate.findOne` is not a function there. The model treats the store and
  the log as working, injected services.
- `register` accepts the role `admin` from the request body. `validateBody`
  sanitises password fields like every other string field. The model keeps
  both as written.

## Model

| member | source | states |
|---|---|---|
| Common.TrimSpec | backend/controllers/certificateController.js:62-66 | the result is a contiguous slice of the input with only whitespace cut on either side, and it neither starts nor ends with whitespace |
| Common.TrimIdempotent | backend/controllers/certificateController.js:66 | trimming a trimmed value changes nothing, so a mapped field is already trimmed |
| Common.TrimEmptyIffAllSpace | backend/controllers/certificateController.js:66 | `value.trim() !== ''` fails exactly for all-whitespace values |
| Common.Lower | backend/controllers/verifyController.js:116 | `toLowerCase` keeps the length and lowers each ASCII capital, leaving other characters as they are |
| Common.LowerIdempotent | backend/controllers/verifyController.js:116-126 | lowering twice is lowering once, so the case of an extracted value never matters |
| Common.ContainsIffOccurs | backend/controllers/adminController.js:143 | `includes` holds exactly when the needle occurs at some index |
| Common.SplitSpec | temp_backup/certificateController.js:28 | `split` yields at least one part, no part holds the separator, and joining the parts gives back the text |
| Common.SplitJoin | backend/middleware/security.js:291 | splitting a joined list of separator-free parts gives back the list, so configured origins are read back exactly |
| Common.SplitCount | temp_backup/certificateController.js:60 | `split` yields one more part than the separator occurs |
| Common.JsSlice | backend/controllers/adminController.js:150 | `slice` never yields more items than the list holds |
| Common.JsLength | backend/controllers/authController.js:82 | `length` counts UTF-16 code units: between the number of characters and twice it, and equal to it exactly when no character lies beyond the Basic Multilingual Plane |
| Common.JsLengthAppend | backend/middleware/validation.js:16 | code-unit lengths add up over concatenation |
| Common.AstralCharactersCountTwice | backend/middleware/validation.js:16 | three emoji have `length` 6, so they pass a `min(6)` bound |
| Common.JsSliceWindow | backend/controllers/adminController.js:150 | for in-range indices `slice(start, end)` is the window of items from `start`, cut at the list's end |
| Common.CeilDiv | backend/controllers/adminController.js:151 | `Math.ceil(count / limit)` is the least page count whose pages hold all items, for either sign of the limit |
| Common.NatToString | temp_backup/certificateController.js:63 | a count is written as a non-empty string of decimal digits |
| Common.CountWhere | backend/controllers/adminController.js:59 | `filter(p).length` never exceeds the list's length |
| Common.FilterSpec | backend/controllers/adminController.js:142-147 | `filter` keeps only members satisfying the predicate, as many as `CountWhere` counts |
| Common.FilterComplete | backend/controllers/adminController.js:142-147 | every member satisfying the predicate survives `filter` |
| Common.AssocPutSpec | backend/controllers/adminController.js:80-81 | assigning an object key sets that key, leaves every other key alone, and adds an entry only for a new key |
| Common.AssocGetIn | backend/controllers/adminController.js:80 | a key reads back exactly when some entry carries it |
| Common.AssocPutUnique | backend/controllers/adminController.js:78-82 | assignment keeps object keys distinct |
| Paging.QueryIntNonZero | backend/controllers/adminController.js:115-117 | `parseInt(q) \|\| d` is never zero for a non-zero default and keeps any non-zero parsed value |
| Paging.PageInfoOf | backend/controllers/adminController.js:150-168 | `totalPages` is the ceiling of count over limit, `hasNext` iff page < totalPages, `hasPrev` iff page > 1 |
| Paging.HasNextIffItemsRemain | backend/controllers/adminController.js:151-165 | for positive page and limit, `hasNext` holds exactly when items remain after the current page |
| Paging.PageNonEmptyIffWithinPages | backend/controllers/adminController.js:150-151 | a page starts inside the list exactly when its number is at most `totalPages` |
| Paging.EveryItemOnItsPage | backend/controllers/adminController.js:150 | item j appears on page j/limit+1 at position j mod limit, and that page is within `totalPages` |
| CertificateTable.Table.constructor | backend/controllers/certificateController.js:122-163 | the table starts from a snapshot whose keyed rows carry their own roll number |
| CertificateIngest.NormalizedKeys | backend/controllers/certificateController.js:60-63 | a normalised row's keys are exactly the trimmed headers |
| CertificateIngest.NormalizedKeysAreTrimmed | backend/controllers/certificateController.js:60-63 | no key of a normalised row has surrounding whitespace |
| CertificateIngest.NormalizeLastColumnWins | backend/controllers/certificateController.js:61-62 | when two headers trim to one key the later column's value is kept |
| CertificateIngest.MapFieldSpec | backend/controllers/certificateController.js:64-69 | `mapField` is undefined iff no alias has a non-blank value; a result is non-empty and trimmed |
| CertificateIngest.MapFieldFirstFilledWins | backend/controllers/certificateController.js:64-69 | the first alias with a non-blank value decides the field, whatever later aliases hold |
| CertificateIngest.ClassifyRow | backend/controllers/certificateController.js:78-95 | an accepted row keeps its row number and has a non-empty name and course; a rejection cites its row |
| CertificateIngest.ClassifyRejectsIffMissing | backend/controllers/certificateController.js:78-85 | a row is set aside exactly when no name alias or no course alias is filled |
| CertificateIngest.ClassifyRejectionMessage | backend/controllers/certificateController.js:79-82 | the message is "Missing required fields: " with student_name listed before course_name |
| CertificateIngest.ClassifyAcceptedFields | backend/controllers/certificateController.js:86-94 | an accepted row holds the mapped name, course, roll number, institution, grade and date, with 'Default Institution', '' and the upload time for an absent institution, grade and date |
| CertificateIngest.ParseRows | backend/controllers/certificateController.js:57-96 | every parsed row ends up valid or in the error list, never both |
| CertificateIngest.ParseRowsKeptNumbered | backend/controllers/certificateController.js:78-95 | every valid row carries a row number of the file |
| CertificateIngest.ParseRowsErrorNumbered | backend/controllers/certificateController.js:78-95 | every validation error carries a row number of the file |
| CertificateIngest.ParseCsv | backend/controllers/certificateController.js:57-96 | the parser handler's loop builds exactly the valid rows and errors of `ParseRows`, in file order, for any row classifier passed in |
| CertificateIngest.PersistCountsConserved | backend/controllers/certificateController.js:112-197 | each valid row adds one to exactly one of inserted, updated, failed; one error per failure and one anchor per persisted row |
| CertificateIngest.PersistKeepsWellKeyed | backend/controllers/certificateController.js:122-163 | the upsert keeps every keyed record under its own roll number |
| CertificateIngest.PersistKeys | backend/controllers/certificateController.js:122-163 | the keys afterwards are the old keys plus the roll numbers of the rows persisted without error |
| CertificateIngest.PersistLastWriteWins | backend/controllers/certificateController.js:117-152 | a record holds the payload of the last persisted row with its roll number |
| CertificateIngest.PersistLeavesOtherKeys | backend/controllers/certificateController.js:142-163 | a record no persisted row writes is left as it was |
| CertificateIngest.PersistKeepsUntouchedColumns | backend/controllers/certificateController.js:134-147 | the upload never changes an existing record's identifier, status or blacklist flag |
| CertificateIngest.PersistOnlyUpdatesKnownKeys | backend/controllers/certificateController.js:122-152 | rows whose roll number is stored and whose step succeeds are all updates, and no key is added |
| CertificateIngest.ReingestIsIdempotent | backend/controllers/certificateController.js:117-163 | uploading the same roll-numbered batch again inserts nothing and leaves every keyed record as the first upload left it |
| CertificateIngest.LastWriter | backend/controllers/certificateController.js:117 | a key written by some row has a last row that writes it |
| CertificateIngest.SaveRows | backend/controllers/certificateController.js:117-197 | the database loop leaves the table, counters, errors and anchor requests exactly as `PersistAll` over the valid rows, and keeps the table well keyed |
| CertificateIngest.RowsRead | backend/controllers/certificateController.js:97-107 | the parse phase hands over a prefix of the rows, all of them when it reaches the end |
| CertificateIngest.PrecheckRejectsWithZeroSummary | backend/controllers/certificateController.js:26-49 | a request passes the checks iff a CSV file (type or `.csv` name) and an e-mail are present; a rejection carries an all-zero summary |
| CertificateIngest.CompletedSummaryConserved | backend/controllers/certificateController.js:112-116 | total counts valid rows, failed counts validation and database errors, one error entry per failure |
| CertificateIngest.BulkUpload | backend/controllers/certificateController.js:15-218 | a rejected request touches nothing, as does the deadline branch (which the five-second resolve keeps the code from reaching); otherwise the table and response are those of parsing then persisting the rows read |
| CertificateIngest.RequestedRangeIsOnePage | backend/controllers/certificateController.js:237-245 | the requested inclusive range covers `limit` rows from `(page-1)*limit`, defaults 1 and 10; for a positive page and limit the rows it selects are exactly the page `slice` would cut |
| CertificateIngest.ListPaginationMatchesPaging | backend/controllers/certificateController.js:256-266 | with records the pagination equals the admin one; with none it reports 0 pages and no next page |
| BackupStore.CertificateStore.constructor | temp_backup/certificateController.js:92-111 | the certificate table starts from the given rows by `certId` |
| BackupStore.BlacklistTable.constructor | temp_backup/adminController.js:183-204 | the blacklist table starts with ids below the next id and no pair listed twice |
| BackupIngest.CellsSpec | temp_backup/certificateController.js:60 | one trimmed cell per comma-separated field |
| BackupIngest.MissingHeadersSpec | temp_backup/certificateController.js:41-42 | a header is reported missing exactly when it is mandatory and absent |
| BackupIngest.RowObject | temp_backup/certificateController.js:69-72 | the row object never holds a key twice |
| BackupIngest.RowObjectLastColumnWins | temp_backup/certificateController.js:70-72 | a repeated header takes the cell of its last column |
| BackupIngest.RowObjectKeys | temp_backup/certificateController.js:70-72 | a key is in the row object exactly when it is a header |
| BackupIngest.Judge | temp_backup/certificateController.js:62-80 | a row reaches the database step only when the schema accepts its object |
| BackupIngest.ProcessCountsConserved | temp_backup/certificateController.js:82-132 | total = inserted + updated + database failures, total + rejected rows = all rows, one message per failure, one anchor per persisted row |
| BackupIngest.ApplyCounts | temp_backup/certificateController.js:58-132 | one row moves exactly one counter and its message or anchor |
| BackupIngest.ColumnMismatchSkipsRow | temp_backup/certificateController.js:62-66 | a row is a column mismatch exactly when its cell count differs from the header count |
| BackupIngest.RejectedRowIsSkipped | temp_backup/certificateController.js:62-80 | a refused row adds one failure and one message and touches neither table, total nor anchors |
| BackupIngest.ProcessNeverSetsOnChain | temp_backup/certificateController.js:96-111 | the upload never marks a record on chain; any on-chain record was so before |
| BackupIngest.PersistedRowIsStored | temp_backup/certificateController.js:86-126 | a persisted row is stored under its `certId` with a fresh digest, keeps `onChain` on update, is off chain on insert, and is anchored |
| BackupIngest.FailedRowIsCounted | temp_backup/certificateController.js:128-132 | a database error counts in total and failed and adds only "Row n: Database error - m" |
| BackupIngest.FirstErrors | temp_backup/certificateController.js:142 | at most the first ten messages are reported, all of them when ten or fewer |
| BackupIngest.ConfirmAnchor | temp_backup/certificateController.js:114-126 | a successful anchor sets `onChain` for that record and nothing else; otherwise nothing changes |
| BackupIngest.ProcessRows | temp_backup/certificateController.js:58-133 | the loop leaves the table and returns the counters, messages and anchors of `Process`, with failed = rejected + database failures |
| BackupIngest.ProcessUpload | temp_backup/certificateController.js:58-153 | after the checks, the table, anchors and reply are those of processing the data rows under the header line |
| BackupIngest.BulkUpload | temp_backup/certificateController.js:17-153 | a rejected file changes nothing; otherwise the table is that of processing the data rows and the reply caps the messages |
| BackupIngest.ReportedErrorsCapped | temp_backup/certificateController.js:135-144 | failed counts every failure while the reply shows min(failures, 10) of the messages |
| BackupIngest.PrecheckRejections | temp_backup/certificateController.js:27-49 | fewer than two lines or missing headers give a 400 naming the missing headers in their fixed order |
| Reconciler.MismatchesEmptyIffAgrees | backend/controllers/verifyController.js:114-128 | the mismatch list is empty iff every non-empty extracted field agrees, and missing iff a null column would raise |
| Reconciler.MismatchMessages | backend/controllers/verifyController.js:116-126 | at most one message per field, in the order name, roll number, course; each of the three reads `X mismatch: expected "<db>", found "<extracted>"` exactly when that extracted field is given and differs; every message is one of those three |
| Reconciler.CaseOfExtractionIsIrrelevant | temp_backup/verifyController.js:129-139 | lower-casing the extracted name and course never changes the comparison |
| Verify.AuditLog.constructor | backend/controllers/verifyController.js:15-23 | the log starts empty |
| Verify.AuditLog.Append | backend/controllers/verifyController.js:30 | `Log.create` appends exactly one entry |
| Verify.VerifyCertificate | backend/controllers/verifyController.js:14-230 | the handler answers `Decide`'s response and appends exactly `Decide`'s one log entry on every path |
| Verify.ReadLedger | backend/controllers/verifyController.js:165-192 | the ledger step sets the status and reasons exactly as `LedgerVerdict` |
| Verify.ExtractionFailureUsesMock | backend/controllers/verifyController.js:66-75 | a failed extraction is decided exactly as the mock extraction |
| Verify.LedgerMapping | backend/controllers/verifyController.js:165-192 | Suspicious iff the ledger says exactly `false`; an unreachable ledger is Valid with "Blockchain verification unavailable"; never Invalid |
| Verify.MismatchDecidesWithoutLedger | backend/controllers/verifyController.js:128-146 | with a mismatch the answer is Suspicious with exactly the mismatch list, whatever the ledger says |
| Verify.ValidMeansAgreement | backend/controllers/verifyController.js:27-192 | Valid means a file, a stored identifier, agreeing fields and no `false` from the ledger |
| Verify.LogStatusMatchesResponse | backend/controllers/verifyController.js:28-222 | the logged status matches the response code on every path; non-200 answers are Invalid without a certificate |
| Verify.IngestAndVerifyDigestsDiffer | backend/controllers/verifyController.js:151-163 | the digest verification recomputes never equals the one bulk upload anchors |
| BackupVerify.AuditLog.constructor | temp_backup/verifyController.js:13-21 | the log starts empty |
| BackupVerify.AuditLog.Append | temp_backup/verifyController.js:28 | `Log.create` appends exactly one entry |
| BackupVerify.VerifyCertificate | temp_backup/verifyController.js:11-239 | the handler answers `Decide`'s response and appends exactly `Decide`'s one log entry on every path |
| BackupVerify.CombineVerdict | temp_backup/verifyController.js:175-201 | the ledger step and the record's flag set the status and reasons exactly as `FinalVerdict` |
| BackupVerify.LogRecordsResponse | temp_backup/verifyController.js:204-206 | the logged result is the lower-case status and the logged reasons are the returned ones |
| BackupVerify.BlacklistDecidesBeforeLookup | temp_backup/verifyController.js:89-105 | a blacklisted identifier or course is Suspicious without a certificate, whatever the store and ledger say |
| BackupVerify.FlaggedRecordIsSuspicious | temp_backup/verifyController.js:76-201 | the whole handler answers 200 Suspicious for a record that is found, agrees with the extracted fields, is not on the blacklist table but carries the flag; the reasons are the ledger's followed by the flagged one, and the stored record is shown |
| BackupVerify.LedgerFailureIsUnavailable | temp_backup/verifyController.js:175-196 | an unsuccessful call and a thrown one decide alike, as Valid with the unavailable reason |
| BackupVerify.ValidMeansClean | temp_backup/verifyController.js:76-201 | Valid means not blacklisted anywhere, agreeing fields and no `false` from the ledger |
| Admin.Trends | backend/controllers/adminController.js:68-75 | exactly seven days, oldest first, each with its number of logs |
| Admin.InstitutionCountsUniqueKeys | backend/controllers/adminController.js:78-82 | the counts object has one entry per institution |
| Admin.InstitutionCountsCorrect | backend/controllers/adminController.js:78-82 | an institution's count is its number of certificates, and it is absent iff it has none |
| Admin.CountInstitutions | backend/controllers/adminController.js:78-82 | the counting loop builds exactly `InstitutionCounts` |
| Admin.Renamed | backend/controllers/adminController.js:84 | an empty institution name becomes 'Unknown', counts unchanged |
| Admin.InsertByCountSorted | backend/controllers/adminController.js:85 | inserting into a ranked list keeps it ranked and adds exactly that entry |
| Admin.InsertByCountPermutes | backend/controllers/adminController.js:85 | inserting adds exactly the one entry to the list's multiset |
| Admin.SortByCountCorrect | backend/controllers/adminController.js:85 | the sort yields a permutation in non-increasing count order |
| Admin.PrefixDominates | backend/controllers/adminController.js:85-86 | in a ranked list every entry kept in a prefix counts at least as much as one left out |
| Admin.TopInstitutionsRanked | backend/controllers/adminController.js:83-86 | at most five institutions, ranked, each from the counts, none left out with a higher count |
| Admin.GetStats | backend/controllers/adminController.js:5-102 | a failed certificate read gives all zeros; a failed log read leaves logs out; otherwise the counts, trends and top-5 |
| Admin.GetLogs | backend/controllers/adminController.js:113-179 | every returned log is stored and matches the filters; the page is the requested one |
| Admin.GetLogsPagination | backend/controllers/adminController.js:142-168 | pagination counts the filtered logs; the items are exactly `slice(offset, offset + limit)` of them, never more than `limit`; each filtered log is on its page |
| Admin.GetCertificates | backend/controllers/adminController.js:182-245 | every returned certificate is stored and matches the filters; the page is the requested one |
| Admin.GetCertificatesPagination | backend/controllers/adminController.js:223-243 | the pagination block counts the matching certificates; the items are exactly `slice(offset, offset + limit)` of them, never more than `limit`; each matching certificate is on the page its index gives |
| Admin.BlacklistedFilterIsTextTrue | backend/controllers/adminController.js:221 | every certificate the listing returns under a blacklisted filter has the flag `query == 'true'`; with no other filter the listing's matches are exactly the stored certificates with that flag |
| Admin.SearchIsSubstring | backend/controllers/adminController.js:212-217 | search matches a substring of the identifier, student name or institution |
| Admin.LogTable.constructor | backend/controllers/adminController.js:263-270 | the log table starts from the given rows |
| Admin.ToggleBlacklist | backend/controllers/adminController.js:248-289 | a missing record gives 404 and no change; otherwise only its flag changes and one log with the default reason is appended |
| Admin.ToggleTwiceRestores | backend/controllers/adminController.js:253-261 | setting the flag as `ToggleBlacklist` does and then setting it back to its old value restores the table |
| Users.UserTable.constructor | backend/models/User.js:5-24 | the user table starts with ids from the sequence and unique e-mails |
| BackupAdmin.FirstInvalidKey | temp_backup/adminController.js:168-180 | the body passes iff the type is certificate or institution, the value is non-empty, any reason is non-empty and no other key is present |
| BackupAdmin.AddToBlacklist | temp_backup/adminController.js:166-213 | 400 for a bad body, 409 for a listed pair with no change, else exactly one new entry with 201; pairs stay unique |
| BackupAdmin.RemoveFromBlacklist | temp_backup/adminController.js:215-241 | an unknown id gives 404, otherwise only that entry is removed |
| BackupAdmin.AddThenRemoveRestores | temp_backup/adminController.js:197-227 | removing a just-added entry restores the table |
| BackupAdmin.DeleteUser | temp_backup/adminController.js:290-324 | the caller's own id is refused first with 400; an unknown id gives 404; otherwise only that user is removed |
| BackupAdmin.BuildWhere | temp_backup/adminController.js:76-90 | status filters only for valid/invalid/suspicious; search filters by identifier; dates filter only when both are given |
| BackupAdmin.FindAndCount | temp_backup/adminController.js:92-131 | refused queries fail; otherwise the logs are the requested page of the matching logs (at most `limit`), the total counts all matches, pages is the ceiling |
| BackupAdmin.EveryLogOnItsPage | temp_backup/adminController.js:71-131 | every matching log is returned on page j/limit+1 |
| BackupAdmin.GetLogs | temp_backup/adminController.js:67-142 | the reply is the single query over the where clause the query asks for, with defaults 1/10: a refused query answers 500; otherwise total counts the matching logs, pages is its ceiling over the limit, and every returned log is stored and within the status, search and date filters |
| Auth.Login | backend/controllers/authController.js:7-67 | 400 for missing fields; 500 when the user lookup throws; otherwise success iff the credentials match; unknown e-mail and wrong password both give the same 401; success returns the stored id, e-mail and role |
| Auth.RequestedRole | backend/controllers/authController.js:72 | the role defaults to 'institution' |
| Auth.Register | backend/controllers/authController.js:70-135 | 400, 400 (for a `length` under 6 code units), then 500 when the lookup throws, then 409, in that order; otherwise exactly one user is added with 201, e-mails stay unique and the new credentials match |
| Validation.CollapseFromSingleSpaced | backend/middleware/validation.js:64-69 | collapsing leaves no whitespace run longer than one space |
| Validation.CollapseFromFixed | backend/middleware/validation.js:64-69 | collapsing leaves single-spaced text unchanged |
| Validation.CollapseIdempotent | backend/middleware/validation.js:64-69 | collapsing twice is collapsing once |
| Validation.CollapseKeepsText | backend/middleware/validation.js:64-69 | collapsing keeps every non-space character in order |
| Validation.NonSpaceAppend | backend/middleware/validation.js:64-69 | dropping whitespace distributes over concatenation |
| Validation.SanitizeString | backend/middleware/validation.js:60-70 | non-strings are returned unchanged; strings come out single-spaced |
| Validation.SanitizeStable | backend/middleware/validation.js:60-70 | sanitising a value whose escape and trim are fixed points gives the same value back |
| Validation.SanitizeFields | backend/middleware/validation.js:92-99 | every key is kept, non-strings pass unchanged and strings come out single-spaced |
| Validation.ValidateBody | backend/middleware/validation.js:75-104 | rejected iff the schema reports errors, with all the messages; otherwise the body is sanitised |
| Validation.PasswordErrors | backend/middleware/validation.js:16-20 | a password passes iff its `length` (UTF-16 code units) is 6 to 128, with at most one message |
| Validation.ChangePasswordOutcome | backend/middleware/validation.js:267-277 | a refusal always carries a message |
| Validation.ChangePasswordRefusesSame | backend/middleware/validation.js:270-277 | with valid passwords the change is refused iff the new one equals the current one |
| Validation.ChangePasswordReportsBothKeys | backend/middleware/validation.js:77-89 | two invalid passwords give two messages |
| Validation.ValidateFileUpload | backend/middleware/validation.js:170-202 | passes iff no file, or allowed type, size within the limit and a safe name; checks in that order with 400 |
| Validation.SizeBoundIsInclusive | backend/middleware/validation.js:185-190 | a file of exactly the limit passes and one byte more is refused |
| Security.SanitizeObject | backend/middleware/security.js:121-144 | strings are cleaned, arrays keep their length, objects keep distinct keys (a key filtering to `__proto__` adds none), other scalars and null are unchanged |
| Security.SanitizeEntries | backend/middleware/security.js:134-140 | the sanitised entries have distinct keys, no more than the input |
| Security.ArrayItemsSanitised | backend/middleware/security.js:130-132 | each array item is sanitised in place |
| Security.SanitizedKeys | backend/middleware/security.js:134-140 | the sanitised object's keys are exactly the cleaned input keys other than `__proto__`, which the assignment turns into a prototype change |
| Security.ObjectSanitisedPerKey | backend/middleware/security.js:134-140 | with distinct cleaned keys the object has one entry per key less a `__proto__` one, and every other key carries its sanitised value |
| Security.SanitisedSize | backend/middleware/security.js:134-140 | with distinct cleaned keys the object's size is the key count, less one when a key cleans to `__proto__` |
| Security.SanitisedValue | backend/middleware/security.js:134-140 | with distinct cleaned keys every key other than `__proto__` carries its own sanitised value |
| Security.RequestSizeLimit | backend/middleware/security.js:149-160 | 413 iff a content length strictly above the limit (default 10 MiB) is given |
| Security.DefaultLimitIsInclusive | backend/middleware/security.js:149-160 | exactly 10 MiB passes and one byte more is refused |
| Security.ClientIp | backend/middleware/security.js:171 | the client IP is the first truthy of request, connection and socket address |
| Security.IpWhitelist | backend/middleware/security.js:165-182 | passes iff the list is empty or holds the client IP; else 403 |
| Security.ValidateUserAgent | backend/middleware/security.js:187-220 | 400 for a missing agent or one whose `length` exceeds 500 code units; otherwise 403 iff suspicious and the path lacks '/health' |
| Security.SuspiciousIgnoresCase | backend/middleware/security.js:198-207 | the pattern screen ignores ASCII case |
| Security.RateLimitExemptPathsPassScreen | backend/middleware/security.js:23-26 | the health paths exempt from rate limiting are never refused as suspicious |
| Security.CorsOrigin | backend/middleware/security.js:289-302 | allowed iff there is no origin or it is in the list; otherwise "Not allowed by CORS" |
| Security.ConfiguredOriginsAdmitExactly | backend/middleware/security.js:289-297 | a configured comma-separated list admits exactly its members |
| RoleMiddleware.RoleGuard | backend/middleware/roleMiddleware.js:1-30 | 401 without a user; passes iff the role equals the required one; else 403 naming the role |
| RoleMiddleware.AdminAndInstitutionExclusive | backend/middleware/roleMiddleware.js:33-36 | no user passes both guards; adminOnly passes exactly the admin role |
| RoleMiddleware.RoleComparisonIsExact | backend/middleware/roleMiddleware.js:13-18 | the comparison is case-sensitive: 'Admin' is refused |
| AdminAuth.AdminAuth | backend/middleware/adminAuth.js:1-19 | 401 without a user, checked first; passes iff the role is admin; else 403 "Admin access required" |
| AdminAuth.AdminAuthAgreesWithAdminOnly | backend/middleware/adminAuth.js:1-19 | `adminAuth` and `adminOnly` admit the same users and refuse with the same codes |

## Left out

- Network, timers and concurrency are not modelled. The extraction and ledger calls become parameters. The 25-second race and the 5-second forced resolve become `ParseOutcome` (`TimedOut` or the number of rows read). The five-second resolve always settles the race before the 25-second rejection, so `TimedOut` is a branch the code has but never reaches. The unawaited anchor request is a recorded `AnchorRequest` whose answer is never read.
- SHA-256, `JSON.stringify`, bcrypt and JWT are symbolic. Equality of digests is equality of the hashed member lists, not a property of SHA-256.
- CSV parsing (csv-parser), date parsing (`new Date(...)`, `toISOString`) and `parseInt` are parameters or already parsed values.
- The Joi schemas, `validator.escape`, `xss` and `validator.isEmail` are parameters. The one Joi rule written in the code, the same-password check, is modelled.
- `JSON.stringify` key order for integer-like keys is not modelled. `Object.entries` lists such keys first, while the model keeps insertion order.
- Admin.InstitutionCounts: an institution named like an `Object.prototype` member (such as `constructor`) is counted like any other name; the JavaScript code reads the inherited member first.
- Admin.GetStats: the 30-day `recentVerifications` and the floating-point `successRate` are left out. They depend on the clock and on float formatting.
- Admin.ToggleBlacklist: a failing log insert is ignored by the code; the model always appends the entry. A non-boolean `blacklisted` body value is not modelled.
- CertificateIngest.RequestedRangeIsOnePage: the rows the range selects are stated only for a positive page and limit; what the store does with a negative range is not part of this model.
- BackupAdmin.BuildWhere: the SQL `LIKE` wildcards `%` and `_` inside a search term are treated as plain characters.
- The getUsers and getBlacklist listings and the earlier variant's getStats are plain reads and are not modelled.
- validateQuery, validateParams and validateIP are not part of this model. Neither are the rate-limit counters, helmet, securityLogger and securityHeaders.
- Auth.Login: `authController.js` takes `User` from `backend/models/index.js`, which exports only `sequelize`, `Certificate` and `Log`. As written, every login with both fields therefore answers 500; the model keeps the handler's intended logic and exposes that failure as `lookupFails`.
- Auth.Register: as for login, the missing `User` export makes every registration that passes the length check answer 500 (`lookupFails`). A failing `jwt.sign` is not modelled. The 500 path covers `User.create` refusing a malformed e-mail or an unknown role; other database errors are not modelled.
- CertificateIngest.RowsRead: the CSV stream keeps handing rows over after the five-second resolve. The loop over `csvData` then also persists rows that arrived after `total` and `failed` were fixed, so inserted + updated + database failures can exceed `total`. The model persists only the rows read when the parse phase ended.
- Validation.ChangePasswordOutcome: the passed body lists `currentPassword` before `newPassword`. The handler keeps the request body's own key order, which the model does not represent.
- BackupAdmin.DeleteUser: foreign-key failures when a user still owns rows are not modelled.
- Common.Lower: only ASCII letters are lowered, which is the behaviour of the `/i` regular expressions but not of `toLowerCase` on non-ASCII text.
- Log.create failures in the verification handlers are not modelled; every path appends its entry.
- The role guards and `adminAuth` answer with a `reasons` array holding one text. The model's `Guard` carries the code and that text.
- An absent `errors` list in a response (`undefined`) is modelled as the empty list.
- Joi's message for an empty string is modelled as the key's name, since the wording is the library's.
- The image forensics service, the ledger client, route wiring, the models' ORM details and the frontend are outside this model.
