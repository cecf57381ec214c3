/** The admin handlers of src/controllers/userController.js that read or change one
    record: getUserById, createUser, updateUser, deleteUser, setActiveStatus and
    changePassword. Each handler spreads the accepted request body into Prisma's `data`,
    so what Joi lets through is what the database is asked to store. The route
    parameter `:id` arrives through `parseInt`: None stands for NaN. */
module UserController {
  import opened Common
  import opened Strings
  import opened Records
  import opened Config
  import opened Http
  import opened Joi
  import opened Validation
  import opened Store

  /** `role: Joi.string().valid(...Object.values(roles))`. */
  function RoleKey(roles: seq<string>, required: bool): Field {
    Field("role", StringKind([]), Some(roles), required)
  }

  function CreateSchema(roles: seq<string>): Schema {
    [StringKey("name", [], true), StringKey("email", [Email], true),
     StringKey("password", [MinLength(6)], true), RoleKey(roles, true),
     BooleanKey("active", false)]
  }

  function UpdateSchema(roles: seq<string>): Schema {
    [StringKey("name", [], false), StringKey("email", [Email], false),
     RoleKey(roles, false), BooleanKey("active", false)]
  }

  const ActiveSchema: Schema := [BooleanKey("active", true)]

  const PasswordSchema: Schema := [StringKey("password", [MinLength(6)], true)]

  const EmailExists: Payload := Errors("message", "Email already exists")

  /** Whether the spread body has the column types Prisma demands: Joi passes the
      strings "true" and "false" for a boolean key, and Prisma refuses a string for the
      boolean `active` column. */
  predicate StoreTyped(body: Body) {
    Lookup(body, "active").None? || BoolAt(body, "active").Some?
  }

  /** The `data` of `create`: the body with the password replaced by its digest; a
      missing `active` takes the column default (true). */
  function Created(env: Env, body: Body): NewUser {
    NewUser(Text(body, "name"), Text(body, "email"), env.hash(Text(body, "password")),
            Text(body, "role"), Or(BoolAt(body, "active"), true))
  }

  /** The `data` of updateUser's `update`: the members of the body, as they are. */
  function BodyPatch(body: Body): Patch {
    NoChange.(name := StringAt(body, "name"), email := StringAt(body, "email"),
              role := StringAt(body, "role"), active := BoolAt(body, "active"))
  }

  /** A body createUser's schema accepts has a role from the configured list and a
      password of at least six UTF-16 code units. */
  lemma CreateAccepts(roles: seq<string>, body: Body, isEmail: string -> bool)
    requires Validate(CreateSchema(roles), body, isEmail) == []
    ensures StringAt(body, "role").Some? && Text(body, "role") in roles
    ensures StringAt(body, "password").Some? && Utf16Length(Text(body, "password")) >= 6
    ensures StringAt(body, "email").Some? && isEmail(Text(body, "email"))
    ensures StringAt(body, "name").Some? && Text(body, "name") != ""
  {
    var schema := CreateSchema(roles);
    AcceptedString(schema, body, isEmail, 0);
    AcceptedString(schema, body, isEmail, 1);
    AcceptedString(schema, body, isEmail, 2);
    AcceptedAllowed(schema, body, isEmail, 3);
    assert Email in schema[1].kind.checks;
    assert MinLength(6) in schema[2].kind.checks;
  }

  /** A role outside the configured list or a password under six UTF-16 code units is a 400. */
  lemma CreateRefuses(roles: seq<string>, body: Body, isEmail: string -> bool)
    requires || (StringAt(body, "role").Some? && Text(body, "role") !in roles)
             || (StringAt(body, "password").Some? && Utf16Length(Text(body, "password")) < 6)
    ensures Validate(CreateSchema(roles), body, isEmail) != []
  {
    if Validate(CreateSchema(roles), body, isEmail) == [] {
      CreateAccepts(roles, body, isEmail);
    }
  }

  /** Whatever updateUser's schema accepts, the role it writes, if any, is a configured
      one, and it never writes the password, the reset fields or lastLogin. */
  lemma UpdateAccepts(roles: seq<string>, body: Body, isEmail: string -> bool)
    requires Validate(UpdateSchema(roles), body, isEmail) == []
    ensures StringAt(body, "role").Some? ==> Text(body, "role") in roles
    ensures StringAt(body, "email").Some? ==> isEmail(Text(body, "email"))
    ensures Lookup(body, "password").None?
  {
    var schema := UpdateSchema(roles);
    AcceptedString(schema, body, isEmail, 1);
    AcceptedAllowed(schema, body, isEmail, 2);
    assert Email in schema[1].kind.checks;
    if Lookup(body, "password").Some? {
      UndeclaredRejected(schema, body, isEmail, "password");
    }
  }

  /** Applying updateUser's data keeps every column the schema does not name. */
  lemma BodyPatchKeepsSecrets(u: User, body: Body)
    ensures var v := Apply(u, BodyPatch(body));
      v.id == u.id && v.password == u.password && v.lastLogin == u.lastLogin
      && v.resetToken == u.resetToken && v.resetTokenExpires == u.resetTokenExpires
      && v.createdAt == u.createdAt
  {
  }

  /** `getUserById`: the whole record, a 404 'User not found' through `next`, or the
      database's refusal of a NaN id. */
  function GetUserById(users: map<nat, User>, id: Option<int>): (reply: Reply)
    ensures id.Some? && 0 <= id.value && id.value as nat in users <==>
      reply.Respond? && reply.status == 200
    ensures reply.Respond? ==>
      id.Some? && 0 <= id.value && id.value as nat in users
      && reply.payload == UserBody(users[id.value as nat])
    ensures id.None? ==> reply == Next(Thrown(InvalidArgument))
    ensures id.Some? && !(0 <= id.value && id.value as nat in users) ==>
      reply == Next(HttpError(404, "User not found"))
  {
    match id
    case None => Next(Thrown(InvalidArgument))
    case Some(i) =>
      if 0 <= i && i as nat in users then Respond(200, UserBody(users[i as nat]))
      else Next(HttpError(404, "User not found"))
  }

  /** `createUser`: a 400 with Joi's messages (among them a role outside the
      configured list and a short password); a refused `active` string; a 400
      'Email already exists' for a taken email; or a 201 with the inserted record. */
  method CreateUser(db: UserStore, env: Env, body: Body, now: int) returns (reply: Reply)
    requires db.Valid()
    modifies db
    ensures db.Valid()
    ensures db.nextId == if reply.Respond? && reply.status == 201 then old(db.nextId) + 1 else old(db.nextId)
    ensures ResetFieldsPaired(old(db.users)) ==> ResetFieldsPaired(db.users)
    ensures RolesWithin(old(db.users), env.roles) ==> RolesWithin(db.users, env.roles)
    ensures var details := Validate(CreateSchema(env.roles), body, env.isEmail);
      if details != [] then
        reply == Respond(400, ErrorsBody(ErrorMap(details))) && db.users == old(db.users)
      else if !StoreTyped(body) then
        reply == Next(Thrown(InvalidArgument)) && db.users == old(db.users)
      else if EmailTaken(old(db.users), Text(body, "email")) then
        reply == Respond(400, EmailExists) && db.users == old(db.users)
      else
        var u := Inserted(old(db.nextId), Created(env, body), now);
        reply == Respond(201, UserBody(u)) && u.id !in old(db.users)
        && db.users == old(db.users)[u.id := u]
  {
    var errors := ValidateRequest(CreateSchema(env.roles), body, env.isEmail);
    if errors.Some? {
      return Respond(400, ErrorsBody(errors.value));
    }
    CreateAccepts(env.roles, body, env.isEmail);
    if !StoreTyped(body) {
      return Next(Thrown(InvalidArgument));
    }
    InsertKeepsInvariants(db.users, db.nextId, Created(env, body), now, env.roles);
    var created := db.Create(Created(env, body), now);
    match created
    case Failure(e) =>
      if e == UniqueViolation {
        reply := Respond(400, EmailExists);
      } else {
        reply := Next(Thrown(e));
      }
    case Success(u) =>
      reply := Respond(201, UserBody(u));
  }

  /** `updateUser`: a 400 with Joi's messages; the database's refusal of a NaN id or an
      `active` string, and of a missing id, reach `next` as they are; a taken email is
      `createError(400, 'Email already exists')`; otherwise the record takes the body's
      name, email, role and active, nothing else changing. */
  method UpdateUser(db: UserStore, env: Env, id: Option<int>, body: Body) returns (reply: Reply)
    requires db.Valid()
    modifies db
    ensures db.Valid()
    ensures db.nextId == old(db.nextId)
    ensures ResetFieldsPaired(old(db.users)) ==> ResetFieldsPaired(db.users)
    ensures RolesWithin(old(db.users), env.roles) ==> RolesWithin(db.users, env.roles)
    ensures var details := Validate(UpdateSchema(env.roles), body, env.isEmail);
      var p := BodyPatch(body);
      if details != [] then
        reply == Respond(400, ErrorsBody(ErrorMap(details))) && db.users == old(db.users)
      else if id.None? || !StoreTyped(body) then
        reply == Next(Thrown(InvalidArgument)) && db.users == old(db.users)
      else if !(0 <= id.value && id.value as nat in old(db.users)) then
        reply == Next(Thrown(RecordNotFound)) && db.users == old(db.users)
      else if p.email.Some? && EmailTakenByOther(old(db.users), p.email.value, id.value as nat) then
        reply == Next(HttpError(400, "Email already exists")) && db.users == old(db.users)
      else
        var u := Apply(old(db.users)[id.value as nat], p);
        reply == Respond(200, UserBody(u)) && db.users == old(db.users)[id.value as nat := u]
  {
    var errors := ValidateRequest(UpdateSchema(env.roles), body, env.isEmail);
    if errors.Some? {
      return Respond(400, ErrorsBody(errors.value));
    }
    UpdateAccepts(env.roles, body, env.isEmail);
    if id.None? || !StoreTyped(body) {
      return Next(Thrown(InvalidArgument));
    }
    var updated := db.Update(id.value, BodyPatch(body));
    match updated
    case Failure(e) =>
      if e == UniqueViolation {
        reply := Next(HttpError(400, "Email already exists"));
      } else {
        reply := Next(Thrown(e));
      }
    case Success(u) =>
      reply := Respond(200, UserBody(u));
  }

  /** `deleteUser`: a missing id is `createError(404, 'User not found')`; otherwise the
      record is removed and every other record stays. */
  method DeleteUser(db: UserStore, id: Option<int>) returns (reply: Reply)
    requires db.Valid()
    modifies db
    ensures db.Valid()
    ensures db.nextId == old(db.nextId)
    ensures id.None? ==> reply == Next(Thrown(InvalidArgument)) && db.users == old(db.users)
    ensures id.Some? && !(0 <= id.value && id.value as nat in old(db.users)) ==>
      reply == Next(HttpError(404, "User not found")) && db.users == old(db.users)
    ensures id.Some? && 0 <= id.value && id.value as nat in old(db.users) ==>
      reply == Respond(200, MessageBody("User deleted"))
      && db.users == old(db.users) - {id.value as nat}
  {
    if id.None? {
      return Next(Thrown(InvalidArgument));
    }
    var deleted := db.Delete(id.value);
    match deleted
    case Failure(e) =>
      if e == RecordNotFound {
        reply := Next(HttpError(404, "User not found"));
      } else {
        reply := Next(Thrown(e));
      }
    case Success(_) =>
      reply := Respond(200, MessageBody("User deleted"));
  }

  /** `setActiveStatus`: a 400 unless `active` is a boolean (or a boolean word, which the
      database then refuses); a missing id is not caught and reaches `next`; otherwise
      only that record's `active` changes. */
  method SetActiveStatus(db: UserStore, id: Option<int>, body: Body, isEmail: string -> bool)
    returns (reply: Reply)
    requires db.Valid()
    modifies db
    ensures db.Valid()
    ensures db.nextId == old(db.nextId)
    ensures ResetFieldsPaired(old(db.users)) ==> ResetFieldsPaired(db.users)
    ensures forall roles: seq<string> :: RolesWithin(old(db.users), roles) ==> RolesWithin(db.users, roles)
    ensures var details := Validate(ActiveSchema, body, isEmail);
      if details != [] then
        reply == Respond(400, ErrorsBody(ErrorMap(details))) && db.users == old(db.users)
      else if id.None? || BoolAt(body, "active").None? then
        reply == Next(Thrown(InvalidArgument)) && db.users == old(db.users)
      else if !(0 <= id.value && id.value as nat in old(db.users)) then
        reply == Next(Thrown(RecordNotFound)) && db.users == old(db.users)
      else
        var i := id.value as nat;
        var u := old(db.users)[i].(active := BoolAt(body, "active").value);
        reply == Respond(200, UserBody(u)) && db.users == old(db.users)[i := u]
  {
    var errors := ValidateRequest(ActiveSchema, body, isEmail);
    if errors.Some? {
      return Respond(400, ErrorsBody(errors.value));
    }
    var active := BoolAt(body, "active");
    if id.None? || active.None? {
      return Next(Thrown(InvalidArgument));
    }
    var updated := db.Update(id.value, NoChange.(active := active));
    match updated
    case Failure(e) =>
      reply := Next(Thrown(e));
    case Success(u) =>
      reply := Respond(200, UserBody(u));
  }

  /** The administrator's `changePassword`: a 400 for a password under six UTF-16 code units;
      a missing id is not caught and reaches `next`; otherwise only that record's
      password changes, to the digest of the new one. */
  method ChangePassword(db: UserStore, env: Env, id: Option<int>, body: Body) returns (reply: Reply)
    requires db.Valid()
    modifies db
    ensures db.Valid()
    ensures db.nextId == old(db.nextId)
    ensures ResetFieldsPaired(old(db.users)) ==> ResetFieldsPaired(db.users)
    ensures RolesWithin(old(db.users), env.roles) ==> RolesWithin(db.users, env.roles)
    ensures var details := Validate(PasswordSchema, body, env.isEmail);
      if details != [] then
        reply == Respond(400, ErrorsBody(ErrorMap(details))) && db.users == old(db.users)
      else if id.None? then
        reply == Next(Thrown(InvalidArgument)) && db.users == old(db.users)
      else if !(0 <= id.value && id.value as nat in old(db.users)) then
        reply == Next(Thrown(RecordNotFound)) && db.users == old(db.users)
      else
        var i := id.value as nat;
        var u := old(db.users)[i].(password := env.hash(Text(body, "password")));
        reply == Respond(200, UserBody(u)) && db.users == old(db.users)[i := u]
  {
    var errors := ValidateRequest(PasswordSchema, body, env.isEmail);
    if errors.Some? {
      return Respond(400, ErrorsBody(errors.value));
    }
    var hashed := env.hash(Text(body, "password"));
    if id.None? {
      return Next(Thrown(InvalidArgument));
    }
    var updated := db.Update(id.value, NoChange.(password := Some(hashed)));
    match updated
    case Failure(e) =>
      reply := Next(Thrown(e));
    case Success(u) =>
      reply := Respond(200, UserBody(u));
  }
}
