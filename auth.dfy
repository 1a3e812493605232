/** Login and registration: the order of the request checks, the single
    reply for every credential failure, and the e-mail uniqueness the
    registration path keeps. Token signing and password hashing are
    symbolic. */
module Auth {
  import opened Common
  import opened Users

  /** A signed token carrying the user's id, e-mail and role. */
  datatype Token = Jwt(userId: int, email: string, role: string)

  datatype AuthReply =
    | Authenticated(code: nat, token: Token, id: int, email: string, role: string)
    | Refused(code: nat, reasons: seq<string>)

  const MissingCredentials := Refused(400, ["Email and password are required"])
  const InvalidCredentials := Refused(401, ["Invalid email or password"])
  const ShortPassword := Refused(400, ["Password must be at least 6 characters long"])
  const EmailInUse := Refused(409, ["User with this email already exists"])
  const ServerError := Refused(500, ["Internal server error"])

  /** Some user has this e-mail and was stored with this password. */
  predicate CredentialsMatch(users: map<int, User>, email: string, password: string) {
    exists id :: id in users && users[id].email == email && users[id].password == Bcrypt(password)
  }

  /** `login`: both fields required, then the lookup by e-mail, then the
      password comparison; an unknown e-mail and a wrong password get the
      same reply. `lookupFails` says the user lookup throws, which the
      handler's catch turns into a 500. */
  method Login(table: UserTable, email: Option<string>, password: Option<string>, lookupFails: bool) returns (reply: AuthReply)
    requires table.Valid()
    ensures !Truthy(email) || !Truthy(password) ==> reply == MissingCredentials
    ensures Truthy(email) && Truthy(password) && lookupFails ==> reply == ServerError
    ensures Truthy(email) && Truthy(password) && !lookupFails ==>
      (reply.Authenticated? <==> CredentialsMatch(table.users, email.value, password.value))
    ensures Truthy(email) && Truthy(password) && !lookupFails && reply.Refused? ==> reply == InvalidCredentials
    ensures reply.Authenticated? ==>
      && reply.code == 200
      && reply.id in table.users
      && table.users[reply.id].email == reply.email == email.value
      && table.users[reply.id].role == reply.role
      && reply.token == Jwt(reply.id, reply.email, reply.role)
  {
    if !Truthy(email) || !Truthy(password) {
      return MissingCredentials;
    }
    if lookupFails {
      return ServerError;
    }
    if !EmailTaken(table.users, email.value) {
      return InvalidCredentials;
    }
    var id :| id in table.users && table.users[id].email == email.value;
    var user := table.users[id];
    if user.password != Bcrypt(password.value) {
      return InvalidCredentials;
    }
    reply := Authenticated(200, Jwt(id, user.email, user.role), id, user.email, user.role);
  }

  /** The role a registration asks for: `institution` when none is given. */
  function RequestedRole(role: Option<string>): (r: string)
    ensures role.None? ==> r == "institution"
    ensures role.Some? ==> r == role.value
  {
    if role.Some? then role.value else "institution"
  }

  /** `register`: both fields required, then the password length, then the
      e-mail must be free, then the table's own checks (`isEmail` is the
      e-mail validator's verdict; an unknown role fails the role column);
      otherwise exactly one user is added. `lookupFails` says the lookup by
      e-mail throws, which the handler's catch turns into a 500. */
  method Register(table: UserTable, email: Option<string>, password: Option<string>, role: Option<string>, isEmail: bool, lookupFails: bool)
    returns (reply: AuthReply)
    requires table.Valid()
    modifies table
    ensures table.Valid()
    ensures !Truthy(email) || !Truthy(password) ==>
      reply == MissingCredentials && table.users == old(table.users) && table.nextId == old(table.nextId)
    ensures Truthy(email) && Truthy(password) && JsLength(password.value) < 6 ==>
      reply == ShortPassword && table.users == old(table.users) && table.nextId == old(table.nextId)
    ensures Truthy(email) && Truthy(password) && JsLength(password.value) >= 6 && lookupFails ==>
      reply == ServerError && table.users == old(table.users) && table.nextId == old(table.nextId)
    ensures Truthy(email) && Truthy(password) && JsLength(password.value) >= 6 && !lookupFails && EmailTaken(old(table.users), email.value) ==>
      reply == EmailInUse && table.users == old(table.users) && table.nextId == old(table.nextId)
    ensures Truthy(email) && Truthy(password) && JsLength(password.value) >= 6 && !lookupFails && !EmailTaken(old(table.users), email.value)
            && (!isEmail || !KnownRole(RequestedRole(role))) ==>
      reply == ServerError && table.users == old(table.users) && table.nextId == old(table.nextId)
    ensures Truthy(email) && Truthy(password) && JsLength(password.value) >= 6 && !lookupFails && !EmailTaken(old(table.users), email.value)
            && isEmail && KnownRole(RequestedRole(role)) ==>
      && table.users == old(table.users)[old(table.nextId) := User(email.value, Bcrypt(password.value), RequestedRole(role))]
      && table.nextId == old(table.nextId) + 1
      && reply == Authenticated(201, Jwt(old(table.nextId), email.value, RequestedRole(role)), old(table.nextId), email.value, RequestedRole(role))
      && CredentialsMatch(table.users, email.value, password.value)
  {
    if !Truthy(email) || !Truthy(password) {
      return MissingCredentials;
    }
    if JsLength(password.value) < 6 {
      return ShortPassword;
    }
    if lookupFails {
      return ServerError;
    }
    if EmailTaken(table.users, email.value) {
      return EmailInUse;
    }
    var r := RequestedRole(role);
    if !isEmail || !KnownRole(r) {
      return ServerError;
    }
    var id := table.nextId;
    table.users := table.users[id := User(email.value, Bcrypt(password.value), r)];
    table.nextId := id + 1;
    assert table.users[id].email == email.value;
    reply := Authenticated(201, Jwt(id, email.value, r), id, email.value, r);
  }
}
