/** The `User` table shared by the login/registration controller and the
    admin user management: users by their auto-increment id, each with a
    unique e-mail. Passwords are stored through a one-way hash that is kept
    symbolic. */
module Users {
  import opened Common

  /** A stored password hash. Only comparison with a candidate is modelled,
      and the model lets a candidate match exactly the password the hash was
      made from (bcrypt itself reads only the first 72 bytes). */
  datatype PasswordHash = Bcrypt(secret: string)

  datatype User = User(email: string, password: PasswordHash, role: string)

  /** The roles the table's enumerated `role` column admits. */
  predicate KnownRole(role: string) {
    role == "admin" || role == "institution"
  }

  class UserTable {
    var users: map<int, User>
    var nextId: int

    /** Ids come from the sequence (positive, below the next one) and no
        e-mail belongs to two users. */
    ghost predicate Valid()
      reads this
    {
      && nextId >= 1
      && (forall id :: id in users ==> 1 <= id < nextId)
      && (forall a, b :: a in users && b in users && users[a].email == users[b].email ==> a == b)
    }

    constructor (initial: map<int, User>, next: int)
      requires next >= 1
      requires forall id :: id in initial ==> 1 <= id < next
      requires forall a, b :: a in initial && b in initial && initial[a].email == initial[b].email ==> a == b
      ensures Valid() && users == initial && nextId == next
    {
      users := initial;
      nextId := next;
    }
  }

  /** Whether some user has this e-mail. */
  predicate EmailTaken(users: map<int, User>, email: string) {
    exists id :: id in users && users[id].email == email
  }
}
