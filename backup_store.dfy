/** The Sequelize tables of the earlier backend variant: certificates keyed
    by their `certId` primary key, and the blacklist with its auto-increment
    ids. */
module BackupStore {
  import opened Common
  import opened Hashing

  /** A `Certificate` row. Columns other than the key may be null. */
  datatype Record = Record(
    name: Option<string>,
    roll: Option<string>,
    course: Option<string>,
    institution: Option<string>,
    hash: Option<Digest>,
    onChain: bool,
    status: Option<string>,
    blacklisted: bool)

  /** The `Certificate` table, keyed by `certId`. */
  class CertificateStore {
    var records: map<string, Record>

    constructor (initial: map<string, Record>)
      ensures records == initial
    {
      records := initial;
    }
  }

  /** A `Blacklist` row: the kind of value listed and the value itself. */
  datatype BlacklistEntry = BlacklistEntry(kind: string, value: string)

  /** The `Blacklist` table: entries by id, and the next id the sequence hands out. */
  class BlacklistTable {
    var entries: map<nat, BlacklistEntry>
    var nextId: nat

    /** Every id was handed out by the sequence, and no (type, value) pair is
        listed twice. */
    ghost predicate Valid()
      reads this
    {
      && (forall id :: id in entries ==> id < nextId)
      && (forall a, b :: a in entries && b in entries && entries[a] == entries[b] ==> a == b)
    }

    constructor (initial: map<nat, BlacklistEntry>, next: nat)
      requires forall id :: id in initial ==> id < next
      requires forall a, b :: a in initial && b in initial && initial[a] == initial[b] ==> a == b
      ensures Valid() && entries == initial && nextId == next
    {
      entries := initial;
      nextId := next;
    }
  }
}
