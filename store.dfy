/** The user table as the handlers see it through Prisma: records keyed by an
    auto-incremented id, with a unique email column. Each call is one atomic step. */
module Store {
  import opened Common
  import opened Records
  import opened Http

  /** What Prisma throws: P2002 (unique email violated), P2025 (no record with that id),
      and a client-side validation error (an argument of the wrong type). */
  datatype StoreError = UniqueViolation | RecordNotFound | InvalidArgument

  /** A store error that no handler catches, as it reaches the error handler: an
      Error without a status code. The database library's own wording is not part of
      this model; each kind carries a fixed stand-in text. */
  function Thrown(e: StoreError): (err: Error)
    ensures err.Fault? && err.statusCode.None? && err.message != ""
  {
    Fault(None, match e
      case UniqueViolation => "Unique constraint failed on the fields: (`email`)"
      case RecordNotFound => "Record to update not found."
      case InvalidArgument => "Invalid argument")
  }

  /** The email column is unique. */
  ghost predicate EmailsUnique(users: map<nat, User>) {
    forall i, j | i in users && j in users && users[i].email == users[j].email :: i == j
  }

  /** Each record is stored under its own id. */
  ghost predicate KeyedById(users: map<nat, User>) {
    forall i | i in users :: users[i].id == i
  }

  predicate EmailTaken(users: map<nat, User>, email: string) {
    exists i | i in users :: users[i].email == email
  }

  predicate EmailTakenByOther(users: map<nat, User>, email: string, id: nat) {
    exists i | i in users :: i != id && users[i].email == email
  }

  /** The id of the record holding an email. */
  ghost function HolderOf(users: map<nat, User>, email: string): (i: nat)
    requires EmailTaken(users, email)
    ensures i in users && users[i].email == email
  {
    var i :| i in users && users[i].email == email; i
  }

  /** `where: { resetToken: token, resetTokenExpires: { gt: now } }`. */
  predicate ResetMatches(u: User, token: string, now: int) {
    u.resetToken == Some(token) && u.resetTokenExpires.Some? && u.resetTokenExpires.value > now
  }

  predicate TokenLive(users: map<nat, User>, token: string, now: int) {
    exists i | i in users :: ResetMatches(users[i], token, now)
  }

  /** resetToken and resetTokenExpires are both set or both null. */
  ghost predicate ResetFieldsPaired(users: map<nat, User>) {
    forall i | i in users :: users[i].resetToken.Some? <==> users[i].resetTokenExpires.Some?
  }

  /** Every stored role is one of `roles`. */
  ghost predicate RolesWithin(users: map<nat, User>, roles: seq<string>) {
    forall i | i in users :: users[i].role in roles
  }

  /** The fields a `create` supplies; the rest take the column defaults. */
  datatype NewUser = NewUser(name: string, email: string, password: string, role: string, active: bool)

  /** The `data` of an `update`: None leaves a column as it is (`lastLogin` is only
      ever set, to a time). */
  datatype Patch = Patch(
    name: Option<string>, email: Option<string>, password: Option<string>,
    role: Option<string>, active: Option<bool>, lastLogin: Option<int>,
    resetToken: Option<Option<string>>, resetTokenExpires: Option<Option<int>>)

  const NoChange: Patch := Patch(None, None, None, None, None, None, None, None)

  function Or<T>(o: Option<T>, default: T): T {
    match o
    case Some(v) => v
    case None => default
  }

  /** The record after an update: the patched columns take their new values, every
      other column keeps its old one. */
  function Apply(u: User, p: Patch): User {
    u.(name := Or(p.name, u.name), email := Or(p.email, u.email),
       password := Or(p.password, u.password), role := Or(p.role, u.role),
       active := Or(p.active, u.active), lastLogin := if p.lastLogin.Some? then p.lastLogin else u.lastLogin,
       resetToken := Or(p.resetToken, u.resetToken),
       resetTokenExpires := Or(p.resetTokenExpires, u.resetTokenExpires))
  }

  /** The record a `create` inserts under a fresh id. */
  function Inserted(id: nat, data: NewUser, now: int): User {
    User(id, data.name, data.email, data.password, data.role, data.active,
         None, None, None, now, now)
  }

  /** Inserting a fresh record keeps the reset fields paired, and keeps every role
      configured when the new one is. */
  lemma InsertKeepsInvariants(users: map<nat, User>, id: nat, data: NewUser, now: int, roles: seq<string>)
    ensures ResetFieldsPaired(users) ==> ResetFieldsPaired(users[id := Inserted(id, data, now)])
    ensures RolesWithin(users, roles) && data.role in roles ==>
      RolesWithin(users[id := Inserted(id, data, now)], roles)
  {
  }

  class UserStore {
    var users: map<nat, User>
    var nextId: nat

    ghost predicate Valid()
      reads this
    {
      KeyedById(users) && EmailsUnique(users) && (forall i | i in users :: i < nextId)
    }

    constructor ()
      ensures Valid() && users == map[]
    {
      users := map[];
      nextId := 0;
    }

    /** `findUnique({ where: { email } })`. */
    method FindUniqueByEmail(email: string) returns (found: Option<User>)
      requires Valid()
      ensures found.None? <==> !EmailTaken(users, email)
      ensures found.Some? ==> found.value == users[HolderOf(users, email)]
    {
      if i :| i in users && users[i].email == email {
        found := Some(users[i]);
      } else {
        found := None;
      }
    }

    /** `findUnique({ where: { id } })`. */
    method FindUniqueById(id: int) returns (found: Option<User>)
      ensures found.None? <==> !(0 <= id && id as nat in users)
      ensures found.Some? ==> found.value == users[id as nat]
    {
      if 0 <= id && id as nat in users {
        found := Some(users[id as nat]);
      } else {
        found := None;
      }
    }

    /** `findFirst` on an unexpired reset token: some record whose token is `token` and
        whose expiry is strictly after `now`. */
    method FindFirstResetHolder(token: string, now: int) returns (found: Option<User>)
      requires Valid()
      ensures found.None? <==> !TokenLive(users, token, now)
      ensures found.Some? ==>
        found.value.id in users && users[found.value.id] == found.value
        && ResetMatches(found.value, token, now)
    {
      if i :| i in users && ResetMatches(users[i], token, now) {
        found := Some(users[i]);
      } else {
        found := None;
      }
    }

    /** `create({ data })`: fails with P2002 when the email is taken. Otherwise the
        record takes the next value of the auto-increment counter, which never goes
        down, so an id is not handed out twice, even after its record is deleted. */
    method Create(data: NewUser, now: int) returns (r: Result<User, StoreError>)
      requires Valid()
      modifies this
      ensures Valid()
      ensures EmailTaken(old(users), data.email) ==>
        r == Failure(UniqueViolation) && users == old(users) && nextId == old(nextId)
      ensures !EmailTaken(old(users), data.email) ==>
        r == Success(Inserted(old(nextId), data, now)) && old(nextId) !in old(users)
        && users == old(users)[old(nextId) := r.value] && nextId == old(nextId) + 1
    {
      if EmailTaken(users, data.email) {
        r := Failure(UniqueViolation);
      } else {
        var u := Inserted(nextId, data, now);
        users := users[nextId := u];
        nextId := nextId + 1;
        r := Success(u);
      }
    }

    /** `update({ where: { id }, data })`: P2025 when there is no such record, P2002
        when the new email belongs to another record. */
    method Update(id: int, p: Patch) returns (r: Result<User, StoreError>)
      requires Valid()
      modifies this
      ensures Valid()
      ensures nextId == old(nextId)
      ensures !(0 <= id && id as nat in old(users)) ==>
        r == Failure(RecordNotFound) && users == old(users)
      ensures 0 <= id && id as nat in old(users) ==>
        if p.email.Some? && EmailTakenByOther(old(users), p.email.value, id as nat) then
          r == Failure(UniqueViolation) && users == old(users)
        else
          r == Success(Apply(old(users)[id as nat], p))
          && users == old(users)[id as nat := r.value]
    {
      if !(0 <= id && id as nat in users) {
        r := Failure(RecordNotFound);
      } else if p.email.Some? && EmailTakenByOther(users, p.email.value, id as nat) {
        r := Failure(UniqueViolation);
      } else {
        var u := Apply(users[id as nat], p);
        users := users[id as nat := u];
        r := Success(u);
      }
    }

    /** `delete({ where: { id } })`: P2025 when there is no such record. */
    method Delete(id: int) returns (r: Result<User, StoreError>)
      requires Valid()
      modifies this
      ensures Valid()
      ensures nextId == old(nextId)
      ensures !(0 <= id && id as nat in old(users)) ==>
        r == Failure(RecordNotFound) && users == old(users)
      ensures 0 <= id && id as nat in old(users) ==>
        r == Success(old(users)[id as nat]) && users == old(users) - {id as nat}
    {
      if !(0 <= id && id as nat in users) {
        r := Failure(RecordNotFound);
      } else {
        r := Success(users[id as nat]);
        users := users - {id as nat};
      }
    }
  }

  /** A deleted record's id is not given to a record inserted afterwards. */
  method DeleteThenCreate(db: UserStore, id: nat, data: NewUser, now: int)
    returns (created: Result<User, StoreError>)
    requires db.Valid() && id in db.users
    modifies db
    ensures db.Valid()
    ensures created.Success? ==> created.value.id != id && created.value.id !in old(db.users)
  {
    var deleted := db.Delete(id);
    created := db.Create(data, now);
  }
}
