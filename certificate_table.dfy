/** The `certificates` table of the backend's store, as bulk upload writes it
    and the blacklist toggle updates it. Rows that carry a roll number are
    keyed by it; rows inserted without one are kept apart, since nothing can
    look them up again. */
module CertificateTable {
  import opened Common

  datatype Certificate = Certificate(
    certificateId: Option<string>,
    studentName: string,
    rollNumber: Option<string>,
    courseName: string,
    institution: Option<string>,
    issueDate: string,
    grade: string,
    status: Option<string>,
    blacklisted: bool)

  /** The table's contents as a value. */
  datatype Snapshot = Snapshot(byRoll: map<string, Certificate>, unkeyed: seq<Certificate>)

  /** Each keyed row carries its key; unkeyed rows carry none. */
  ghost predicate WellKeyed(s: Snapshot) {
    && (forall k :: k in s.byRoll ==> s.byRoll[k].rollNumber == Some(k))
    && (forall i :: 0 <= i < |s.unkeyed| ==> s.unkeyed[i].rollNumber.None?)
  }

  class Table {
    var byRoll: map<string, Certificate>
    var unkeyed: seq<Certificate>

    ghost predicate Valid()
      reads this
    {
      WellKeyed(Contents())
    }

    function Contents(): Snapshot
      reads this
    {
      Snapshot(byRoll, unkeyed)
    }

    constructor (initial: Snapshot)
      requires WellKeyed(initial)
      ensures Valid() && Contents() == initial
    {
      byRoll := initial.byRoll;
      unkeyed := initial.unkeyed;
    }
  }
}
