/** The field comparison both verification handlers make between what the
    extraction service read off the document and the stored certificate:
    name and course case-insensitively, roll number exactly, and a field the
    extraction left empty is not compared. */
module Reconciler {
  import opened Common

  /** The fields the extraction service returns; any of them may be missing. */
  datatype Extracted = Extracted(certId: Option<string>, name: Option<string>, roll: Option<string>, course: Option<string>)

  /** The stored columns the comparison reads; any of them may be null. */
  datatype StoredFields = StoredFields(name: Option<string>, roll: Option<string>, course: Option<string>)

  /** A nullable column in a template literal. */
  function Show(o: Option<string>): string {
    if o.Some? then o.value else "null"
  }

  function MismatchMessage(field: string, expected: string, found: string): string {
    field + " mismatch: expected \"" + expected + "\", found \"" + found + "\""
  }

  /** The list for one case-insensitively compared field: `None` when the
      stored column is null, since calling `toLowerCase` on it raises. */
  function CaseInsensitiveCheck(field: string, stored: Option<string>, found: Option<string>): Option<seq<string>> {
    if !Truthy(found) then Some([])
    else if stored.None? then None
    else if Lower(stored.value) != Lower(found.value) then Some([MismatchMessage(field, stored.value, found.value)])
    else Some([])
  }

  /** The list of mismatches in the order name, roll number, course, or `None`
      when the comparison raises on a null column. */
  function Mismatches(db: StoredFields, ex: Extracted): Option<seq<string>> {
    var name := CaseInsensitiveCheck("Name", db.name, ex.name);
    var roll := if Truthy(ex.roll) && db.roll != ex.roll then [MismatchMessage("Roll number", Show(db.roll), ex.roll.value)] else [];
    var course := CaseInsensitiveCheck("Course", db.course, ex.course);
    if name.None? || course.None? then None
    else Some(name.value + roll + course.value)
  }

  /** Every non-empty extracted field agrees with the stored one: name and
      course up to ASCII case, the roll number exactly. */
  predicate Agrees(db: StoredFields, ex: Extracted) {
    && (Truthy(ex.name) ==> db.name.Some? && SameIgnoringCase(db.name.value, ex.name.value))
    && (Truthy(ex.roll) ==> db.roll == ex.roll)
    && (Truthy(ex.course) ==> db.course.Some? && SameIgnoringCase(db.course.value, ex.course.value))
  }

  /** The comparison raises exactly when a non-empty extracted name or course
      meets a null column. */
  predicate Raises(db: StoredFields, ex: Extracted) {
    (Truthy(ex.name) && db.name.None?) || (Truthy(ex.course) && db.course.None?)
  }

  /** The mismatch list is empty exactly when the fields agree, and it is
      missing exactly when the comparison raises. */
  lemma MismatchesEmptyIffAgrees(db: StoredFields, ex: Extracted)
    ensures Mismatches(db, ex).None? <==> Raises(db, ex)
    ensures Mismatches(db, ex) == Some([]) <==> Agrees(db, ex)
  {
  }

  /** At most one message per field, in the order name, roll number, course;
      each differing field is reported naming the stored and the found value,
      and every message is one of those three reports. */
  lemma MismatchMessages(db: StoredFields, ex: Extracted)
    requires Mismatches(db, ex).Some?
    ensures |Mismatches(db, ex).value| <= 3
    ensures Truthy(ex.name) && !SameIgnoringCase(db.name.value, ex.name.value) ==>
      Mismatches(db, ex).value[0] == MismatchMessage("Name", db.name.value, ex.name.value)
    ensures Truthy(ex.roll) && db.roll != ex.roll ==>
      MismatchMessage("Roll number", Show(db.roll), ex.roll.value) in Mismatches(db, ex).value
    ensures Truthy(ex.course) && !SameIgnoringCase(db.course.value, ex.course.value) ==>
      var ms := Mismatches(db, ex).value;
      ms[|ms| - 1] == MismatchMessage("Course", db.course.value, ex.course.value)
    ensures forall m :: m in Mismatches(db, ex).value ==> IsFieldReport(db, ex, m)
  {
    var name := CaseInsensitiveCheck("Name", db.name, ex.name);
    var roll := if Truthy(ex.roll) && db.roll != ex.roll then [MismatchMessage("Roll number", Show(db.roll), ex.roll.value)] else [];
    var course := CaseInsensitiveCheck("Course", db.course, ex.course);
    var ms := name.value + roll + course.value;
    assert Mismatches(db, ex).value == ms;
    forall m | m in ms ensures IsFieldReport(db, ex, m) {
      if m in name.value {
      } else if m in roll {
      } else {
        assert m in course.value;
      }
    }
  }

  /** `m` is the report of one of the three compared fields. */
  predicate IsFieldReport(db: StoredFields, ex: Extracted, m: string) {
    || (Truthy(ex.name) && db.name.Some? && m == MismatchMessage("Name", db.name.value, ex.name.value))
    || (Truthy(ex.roll) && m == MismatchMessage("Roll number", Show(db.roll), ex.roll.value))
    || (Truthy(ex.course) && db.course.Some? && m == MismatchMessage("Course", db.course.value, ex.course.value))
  }

  /** Changing the case of the extracted name or course never changes the
      verdict. */
  lemma CaseOfExtractionIsIrrelevant(db: StoredFields, ex: Extracted)
    requires ex.name.Some? && ex.course.Some?
    ensures var lowered := ex.(name := Some(Lower(ex.name.value)), course := Some(Lower(ex.course.value)));
      Agrees(db, lowered) <==> Agrees(db, ex)
  {
    LowerIdempotent(ex.name.value);
    LowerIdempotent(ex.course.value);
  }
}
