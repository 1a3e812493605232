/** The request validation middleware: string sanitising, body validation
    with sanitised output, the file upload guard and the password-change
    rule. The schema library and the HTML escaper are given as their
    answers: a list of messages or a validated value, and a function on
    strings. */
module Validation {
  import opened Common

  // ---------------------------------------------------------------------------
  // sanitizeString
  // ---------------------------------------------------------------------------

  /** `s.replace(/\s+/g, ' ')`, scanning left to right; `inRun` says the
      previous character was whitespace already replaced. */
  function CollapseFrom(s: string, inRun: bool): string
    decreases |s|
  {
    if s == [] then []
    else if IsSpace(s[0]) then (if inRun then [] else [' ']) + CollapseFrom(s[1..], true)
    else [s[0]] + CollapseFrom(s[1..], false)
  }

  /** Every run of whitespace replaced by one space. */
  function CollapseSpaces(s: string): string {
    CollapseFrom(s, false)
  }

  /** No two whitespace characters are adjacent, and the only whitespace is
      the plain space. */
  predicate SingleSpaced(s: string) {
    && (forall i :: 0 <= i < |s| ==> IsSpace(s[i]) ==> s[i] == ' ')
    && (forall i :: 0 <= i < |s| - 1 ==> !(IsSpace(s[i]) && IsSpace(s[i + 1])))
  }

  lemma {:induction false} CollapseFromSingleSpaced(s: string, inRun: bool)
    ensures SingleSpaced(CollapseFrom(s, inRun))
    ensures inRun && CollapseFrom(s, inRun) != [] ==> !IsSpace(CollapseFrom(s, inRun)[0])
    decreases |s|
  {
    if s != [] {
      var rest := CollapseFrom(s[1..], IsSpace(s[0]));
      CollapseFromSingleSpaced(s[1..], IsSpace(s[0]));
      var r := CollapseFrom(s, inRun);
      if IsSpace(s[0]) && !inRun {
        assert r == [' '] + rest;
        forall i | 0 <= i < |r| - 1 ensures !(IsSpace(r[i]) && IsSpace(r[i + 1])) {
          if i > 0 {
            assert r[i] == rest[i - 1] && r[i + 1] == rest[i];
          }
        }
      } else if !IsSpace(s[0]) {
        assert r == [s[0]] + rest;
        forall i | 0 <= i < |r| - 1 ensures !(IsSpace(r[i]) && IsSpace(r[i + 1])) {
          if i > 0 {
            assert r[i] == rest[i - 1] && r[i + 1] == rest[i];
          }
        }
      }
    }
  }

  /** A string without whitespace runs and with only plain spaces is left as
      it is; `inRun` may hold only when it does not start with whitespace. */
  lemma {:induction false} CollapseFromFixed(s: string, inRun: bool)
    requires SingleSpaced(s)
    requires inRun && s != [] ==> !IsSpace(s[0])
    ensures CollapseFrom(s, inRun) == s
    decreases |s|
  {
    if s != [] {
      assert SingleSpaced(s[1..]) by {
        forall i | 0 <= i < |s[1..]| - 1 ensures !(IsSpace(s[1..][i]) && IsSpace(s[1..][i + 1])) {
          assert s[1..][i] == s[i + 1] && s[1..][i + 1] == s[i + 2];
        }
      }
      if IsSpace(s[0]) && |s| > 1 {
        assert !(IsSpace(s[0]) && IsSpace(s[1]));
      }
      CollapseFromFixed(s[1..], IsSpace(s[0]));
      assert s == [s[0]] + s[1..];
    }
  }

  /** Collapsing twice is collapsing once. */
  lemma CollapseIdempotent(s: string)
    ensures CollapseSpaces(CollapseSpaces(s)) == CollapseSpaces(s)
  {
    CollapseFromSingleSpaced(s, false);
    CollapseFromFixed(CollapseSpaces(s), false);
  }

  /** The characters that are not whitespace, in order. */
  function NonSpace(s: string): string
    decreases |s|
  {
    if s == [] then [] else (if IsSpace(s[0]) then [] else [s[0]]) + NonSpace(s[1..])
  }

  /** Collapsing keeps every other character, in order. */
  lemma {:induction false} CollapseKeepsText(s: string, inRun: bool)
    ensures NonSpace(CollapseFrom(s, inRun)) == NonSpace(s)
    decreases |s|
  {
    if s != [] {
      CollapseKeepsText(s[1..], IsSpace(s[0]));
      var rest := CollapseFrom(s[1..], IsSpace(s[0]));
      var head: string := if IsSpace(s[0]) then (if inRun then [] else [' ']) else [s[0]];
      assert CollapseFrom(s, inRun) == head + rest;
      NonSpaceAppend(head, rest);
    }
  }

  lemma {:induction false} NonSpaceAppend(a: string, b: string)
    ensures NonSpace(a + b) == NonSpace(a) + NonSpace(b)
    decreases |a|
  {
    if a == [] {
      assert a + b == b;
    } else {
      assert (a + b)[1..] == a[1..] + b;
      NonSpaceAppend(a[1..], b);
    }
  }

  /** `sanitizeString`: non-strings pass unchanged; a string is trimmed, then
      escaped, then whitespace runs collapse to one space. */
  function SanitizeString(input: JsValue, escape: string -> string): (r: JsValue)
    ensures !input.JsString? ==> r == input
    ensures input.JsString? ==> r.JsString? && SingleSpaced(r.s)
  {
    if !input.JsString? then input
    else
      var collapsed := CollapseSpaces(escape(Trim(input.s)));
      CollapseFromSingleSpaced(escape(Trim(input.s)), false);
      JsString(collapsed)
  }

  /** Sanitising an already sanitised string again changes nothing when the
      escaper leaves its own output alone. */
  lemma SanitizeStable(s: string, escape: string -> string)
    requires var once := SanitizeString(JsString(s), escape).s; Trim(once) == once && escape(once) == once
    ensures var once := SanitizeString(JsString(s), escape);
      SanitizeString(once, escape) == once
  {
    CollapseIdempotent(escape(Trim(s)));
  }

  // ---------------------------------------------------------------------------
  // validateBody
  // ---------------------------------------------------------------------------

  /** What the schema answers with all errors collected and unknown keys
      stripped: every message, or the validated object. */
  datatype SchemaOutcome = SchemaErrors(messages: seq<string>) | SchemaValue(fields: seq<(string, JsValue)>)

  datatype BodyCheck = BodyRejected(code: nat, message: string, errors: seq<string>) | BodyPassed(body: seq<(string, JsValue)>)

  /** The fresh object `validateBody` hands on: the same keys in the same
      order, strings sanitised and every other value as it was. */
  function SanitizeFields(fields: seq<(string, JsValue)>, escape: string -> string): (r: seq<(string, JsValue)>)
    ensures |r| == |fields|
    ensures forall i :: 0 <= i < |r| ==> r[i].0 == fields[i].0
    ensures forall i :: 0 <= i < |r| && !fields[i].1.JsString? ==> r[i].1 == fields[i].1
    ensures forall i :: 0 <= i < |r| && fields[i].1.JsString? ==> r[i].1.JsString? && SingleSpaced(r[i].1.s)
  {
    seq(|fields|, i requires 0 <= i < |fields| => (fields[i].0, SanitizeString(fields[i].1, escape)))
  }

  /** `validateBody`: on errors a 400 listing every message; otherwise the
      sanitised body. */
  function ValidateBody(outcome: SchemaOutcome, escape: string -> string): (r: BodyCheck)
    ensures outcome.SchemaErrors? <==> r.BodyRejected?
    ensures outcome.SchemaErrors? ==> r == BodyRejected(400, "Validation failed", outcome.messages)
    ensures outcome.SchemaValue? ==> r.body == SanitizeFields(outcome.fields, escape)
  {
    match outcome
    case SchemaErrors(messages) => BodyRejected(400, "Validation failed", messages)
    case SchemaValue(fields) => BodyPassed(SanitizeFields(fields, escape))
  }

  // ---------------------------------------------------------------------------
  // The password-change schema
  // ---------------------------------------------------------------------------

  const SamePasswordMessage := "New password must be different from current password"

  /** The password schema's messages for one key: required, not empty, 6 to
      128 characters, counted as JavaScript's `length` counts them. */
  function PasswordErrors(p: Option<string>, key: string): (r: seq<string>)
    ensures r == [] <==> p.Some? && 6 <= JsLength(p.value) <= 128
    ensures |r| <= 1
  {
    if p.None? then ["Password is required"]
    else if p.value == "" then ["\"" + key + "\" is not allowed to be empty"]
    else if JsLength(p.value) < 6 then ["Password must be at least 6 characters long"]
    else if JsLength(p.value) > 128 then ["Password cannot exceed 128 characters"]
    else []
  }

  /** The `changePassword` schema: both keys are checked, and only when both
      pass does the object rule refuse an unchanged password. */
  function ChangePasswordOutcome(current: Option<string>, next: Option<string>): (o: SchemaOutcome)
    ensures o.SchemaErrors? ==> o.messages != []
  {
    var errors := PasswordErrors(current, "currentPassword") + PasswordErrors(next, "newPassword");
    if errors != [] then SchemaErrors(errors)
    else if current.value == next.value then SchemaErrors([SamePasswordMessage])
    else SchemaValue([("currentPassword", JsString(current.value)), ("newPassword", JsString(next.value))])
  }

  /** With two well-formed passwords, the change is refused exactly when they
      are equal, and then with the one same-password message. The key order
      of the passed body is the model's (`currentPassword` first). */
  lemma ChangePasswordRefusesSame(current: string, next: string, escape: string -> string)
    requires 6 <= JsLength(current) <= 128 && 6 <= JsLength(next) <= 128
    ensures var r := ValidateBody(ChangePasswordOutcome(Some(current), Some(next)), escape);
      && (r.BodyRejected? <==> current == next)
      && (r.BodyRejected? ==> r.errors == [SamePasswordMessage])
      && (r.BodyPassed? ==> |r.body| == 2 && r.body[0].0 == "currentPassword" && r.body[1].0 == "newPassword")
  {
  }

  /** Every malformed key is reported, not only the first. */
  lemma ChangePasswordReportsBothKeys(current: Option<string>, next: Option<string>, escape: string -> string)
    requires !(current.Some? && 6 <= JsLength(current.value) <= 128) && !(next.Some? && 6 <= JsLength(next.value) <= 128)
    ensures |ValidateBody(ChangePasswordOutcome(current, next), escape).errors| == 2
  {
  }

  // ---------------------------------------------------------------------------
  // validateFileUpload
  // ---------------------------------------------------------------------------

  datatype FileInfo = FileInfo(mimetype: string, size: nat, originalName: string)

  const DefaultMaxUpload: nat := 5 * 1024 * 1024

  /** `Math.round(maxSize / (1024 * 1024))` for a non-negative size. */
  function RoundedMegabytes(size: nat): nat {
    (size + 524288) / 1048576
  }

  predicate TypeAllowed(allowedTypes: seq<string>, mimetype: string) {
    |allowedTypes| == 0 || mimetype in allowedTypes
  }

  predicate SafeFileName(name: string) {
    !Contains(name, "..") && !Contains(name, "/")
  }

  /** `validateFileUpload`: no file passes; otherwise type, then size, then
      name. */
  function ValidateFileUpload(allowedTypes: seq<string>, maxSize: nat, file: Option<FileInfo>): (r: Guard)
    ensures r.Pass? <==> (file.None? ||
      (TypeAllowed(allowedTypes, file.value.mimetype) && file.value.size <= maxSize && SafeFileName(file.value.originalName)))
    ensures r.Deny? ==> r.code == 400
    ensures file.Some? && !TypeAllowed(allowedTypes, file.value.mimetype) ==>
      r.message == "Invalid file type. Allowed types: " + JoinWith(allowedTypes, ", ")
    ensures file.Some? && TypeAllowed(allowedTypes, file.value.mimetype) && file.value.size > maxSize ==>
      r.message == "File too large. Maximum size: " + NatToString(RoundedMegabytes(maxSize)) + "MB"
    ensures file.Some? && TypeAllowed(allowedTypes, file.value.mimetype) && file.value.size <= maxSize
            && !SafeFileName(file.value.originalName) ==>
      r.message == "Invalid file name"
  {
    if file.None? then Pass
    else if !TypeAllowed(allowedTypes, file.value.mimetype) then
      Deny(400, "Invalid file type. Allowed types: " + JoinWith(allowedTypes, ", "))
    else if file.value.size > maxSize then
      Deny(400, "File too large. Maximum size: " + NatToString(RoundedMegabytes(maxSize)) + "MB")
    else if !SafeFileName(file.value.originalName) then Deny(400, "Invalid file name")
    else Pass
  }

  /** A file exactly at the size bound passes the size check. */
  lemma SizeBoundIsInclusive(allowedTypes: seq<string>, f: FileInfo)
    requires TypeAllowed(allowedTypes, f.mimetype) && SafeFileName(f.originalName)
    ensures ValidateFileUpload(allowedTypes, f.size, Some(f)) == Pass
    ensures ValidateFileUpload(allowedTypes, f.size, Some(f.(size := f.size + 1))).Deny?
  {
  }
}
