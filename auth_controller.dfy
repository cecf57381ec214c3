/** The authentication handlers of src/controllers/authController.js: register, login,
    forgot-password and reset-password, each one atomic step on the user table. The
    reset link e-mail is output only and is not part of this model. */
module AuthController {
  import opened Common
  import opened Strings
  import opened Records
  import opened Config
  import opened Http
  import opened Joi
  import opened Validation
  import opened Store

  const RegisterSchema: Schema :=
    [StringKey("name", [], true), StringKey("email", [Email], true),
     StringKey("password", [MinLength(6)], true)]

  const LoginSchema: Schema := [StringKey("email", [Email], true), StringKey("password", [], true)]

  const ForgotSchema: Schema := [StringKey("email", [Email], true)]

  const ResetSchema: Schema := [StringKey("password", [MinLength(6)], true)]

  /** A reset token lives for one hour. */
  const ResetWindow: int := 3600000

  const InvalidCredentials: Reply := Respond(401, Errors("message", "Invalid email or password"))

  const InvalidToken: Reply := Respond(400, Errors("token", "Invalid or expired token"))

  /** The record forgot-password writes: a new token and its expiry, set together. */
  function Issued(u: User, token: string, now: int): User {
    u.(resetToken := Some(token), resetTokenExpires := Some(now + ResetWindow))
  }

  /** The record reset-password writes: the new digest, both reset fields cleared. */
  function Consumed(u: User, digest: string): User {
    u.(password := digest, resetToken := None, resetTokenExpires := None)
  }

  /** A body register accepts names a non-empty name, a valid email and a password of
      at least six UTF-16 code units, and nothing else: a `role` member is refused, so the
      stored role can only be the default one. */
  lemma RegisterAccepts(body: Body, isEmail: string -> bool)
    requires Validate(RegisterSchema, body, isEmail) == []
    ensures StringAt(body, "name").Some? && Text(body, "name") != ""
    ensures StringAt(body, "email").Some? && isEmail(Text(body, "email"))
    ensures StringAt(body, "password").Some? && Utf16Length(Text(body, "password")) >= 6
    ensures Lookup(body, "role").None?
  {
    RegisterNameAndEmail(body, isEmail);
    RegisterPassword(body, isEmail);
    RegisterNoRole(body, isEmail);
  }

  lemma RegisterNameAndEmail(body: Body, isEmail: string -> bool)
    requires Validate(RegisterSchema, body, isEmail) == []
    ensures StringAt(body, "name").Some? && Text(body, "name") != ""
    ensures StringAt(body, "email").Some? && isEmail(Text(body, "email"))
  {
    var schema := RegisterSchema;
    AcceptedString(schema, body, isEmail, 0);
    AcceptedString(schema, body, isEmail, 1);
    assert Email in schema[1].kind.checks;
  }

  lemma RegisterPassword(body: Body, isEmail: string -> bool)
    requires Validate(RegisterSchema, body, isEmail) == []
    ensures StringAt(body, "password").Some? && Utf16Length(Text(body, "password")) >= 6
  {
    var schema := RegisterSchema;
    assert schema[2].key == "password" && schema[2].kind.checks == [MinLength(6)];
    AcceptedString(schema, body, isEmail, 2);
    assert Passes(MinLength(6), Text(body, "password"), isEmail);
  }

  lemma RegisterNoRole(body: Body, isEmail: string -> bool)
    requires Validate(RegisterSchema, body, isEmail) == []
    ensures Lookup(body, "role").None?
  {
    var schema := RegisterSchema;
    if Lookup(body, "role").Some? {
      assert !Declared(schema, "role") by {
        assert |schema| == 3 && "role"[0] == 'r';
        assert schema[0].key[0] == 'n' && schema[1].key[0] == 'e' && schema[2].key[0] == 'p';
      }
      UndeclaredRejected(schema, body, isEmail, "role");
    }
  }

  /** A missing name, an invalid email or a password under six UTF-16 code units is refused. */
  lemma RegisterRefuses(body: Body, isEmail: string -> bool)
    requires || Lookup(body, "name").None?
             || (StringAt(body, "email").Some? && !isEmail(Text(body, "email")))
             || (StringAt(body, "password").Some? && Utf16Length(Text(body, "password")) < 6)
    ensures Validate(RegisterSchema, body, isEmail) != []
  {
    if Validate(RegisterSchema, body, isEmail) == [] {
      RegisterAccepts(body, isEmail);
    }
  }

  /** `register`: a 400 with Joi's messages, a 400 `{ email: 'Email already exists' }`
      for a taken email, or a 201 with the inserted record, whose role is the configured
      default whatever the body holds. */
  method Register(db: UserStore, env: Env, body: Body, now: int) returns (reply: Reply)
    requires db.Valid()
    modifies db
    ensures db.Valid()
    ensures db.nextId == if reply.Respond? && reply.status == 201 then old(db.nextId) + 1 else old(db.nextId)
    ensures ResetFieldsPaired(old(db.users)) ==> ResetFieldsPaired(db.users)
    ensures RolesWithin(old(db.users), env.roles) && env.defaultUserRole in env.roles ==>
      RolesWithin(db.users, env.roles)
    ensures var details := Validate(RegisterSchema, body, env.isEmail);
      if details != [] then
        reply == Respond(400, ErrorsBody(ErrorMap(details))) && db.users == old(db.users)
      else if EmailTaken(old(db.users), Text(body, "email")) then
        reply == Respond(400, Errors("email", "Email already exists")) && db.users == old(db.users)
      else
        var u := Inserted(old(db.nextId), NewUser(Text(body, "name"), Text(body, "email"),
                          env.hash(Text(body, "password")), env.defaultUserRole, true), now);
        reply == Respond(201, UserBody(u)) && u.id !in old(db.users)
        && db.users == old(db.users)[u.id := u]
  {
    var errors := ValidateRequest(RegisterSchema, body, env.isEmail);
    if errors.Some? {
      return Respond(400, ErrorsBody(errors.value));
    }
    var hashed := env.hash(Text(body, "password"));
    var data := NewUser(Text(body, "name"), Text(body, "email"), hashed, env.defaultUserRole, true);
    InsertKeepsInvariants(db.users, db.nextId, data, now, env.roles);
    var created := db.Create(data, now);
    match created
    case Failure(e) =>
      if e == UniqueViolation {
        reply := Respond(400, Errors("email", "Email already exists"));
      } else {
        reply := Next(Thrown(e));
      }
    case Success(u) =>
      reply := Respond(201, UserBody(u));
  }

  /** `login`: the same 401 for an unknown email and for a wrong password; a 403 for an
      inactive account only once the password is right; otherwise that user's lastLogin
      becomes `now`, nothing else changes, and the answer is `{ token }` signed over the
      user's id. */
  method Login(db: UserStore, env: Env, body: Body, now: int) returns (reply: Reply)
    requires db.Valid()
    modifies db
    ensures db.Valid()
    ensures db.nextId == old(db.nextId)
    ensures ResetFieldsPaired(old(db.users)) ==> ResetFieldsPaired(db.users)
    ensures RolesWithin(old(db.users), env.roles) ==> RolesWithin(db.users, env.roles)
    ensures var details := Validate(LoginSchema, body, env.isEmail);
      var email, password := Text(body, "email"), Text(body, "password");
      if details != [] then
        reply == Respond(400, ErrorsBody(ErrorMap(details))) && db.users == old(db.users)
      else if !EmailTaken(old(db.users), email) then
        reply == InvalidCredentials && db.users == old(db.users)
      else
        var u := old(db.users)[HolderOf(old(db.users), email)];
        if !env.Verify(password, u.password) then
          reply == InvalidCredentials && db.users == old(db.users)
        else if !u.active then
          reply == Respond(403, Errors("message", "Account is inactive")) && db.users == old(db.users)
        else
          reply == Respond(200, TokenBody(env.sign(u.id)))
          && db.users == old(db.users)[u.id := u.(lastLogin := Some(now))]
  {
    var errors := ValidateRequest(LoginSchema, body, env.isEmail);
    if errors.Some? {
      return Respond(400, ErrorsBody(errors.value));
    }
    var email, password := Text(body, "email"), Text(body, "password");
    var found := db.FindUniqueByEmail(email);
    if found.None? || !env.Verify(password, found.value.password) {
      return InvalidCredentials;
    }
    var u := found.value;
    if !u.active {
      return Respond(403, Errors("message", "Account is inactive"));
    }
    var updated := db.Update(u.id, NoChange.(lastLogin := Some(now)));
    assert updated.Success?;  // the record was just found, and no email is written
    reply := Respond(200, TokenBody(env.sign(u.id)));
  }

  /** `forgotPassword`: a 404 `{ email: 'User not found' }` for an unknown email;
      otherwise the holder's token becomes `freshToken` and its expiry `now` plus one
      hour, replacing any earlier token, and nothing else changes. */
  method ForgotPassword(db: UserStore, env: Env, body: Body, now: int, freshToken: string)
    returns (reply: Reply)
    requires db.Valid()
    modifies db
    ensures db.Valid()
    ensures db.nextId == old(db.nextId)
    ensures ResetFieldsPaired(old(db.users)) ==> ResetFieldsPaired(db.users)
    ensures RolesWithin(old(db.users), env.roles) ==> RolesWithin(db.users, env.roles)
    ensures var details := Validate(ForgotSchema, body, env.isEmail);
      var email := Text(body, "email");
      if details != [] then
        reply == Respond(400, ErrorsBody(ErrorMap(details))) && db.users == old(db.users)
      else if !EmailTaken(old(db.users), email) then
        reply == Respond(404, Errors("email", "User not found")) && db.users == old(db.users)
      else
        var i := HolderOf(old(db.users), email);
        reply == Respond(200, MessageBody("Password reset link sent"))
        && db.users == old(db.users)[i := Issued(old(db.users)[i], freshToken, now)]
  {
    var errors := ValidateRequest(ForgotSchema, body, env.isEmail);
    if errors.Some? {
      return Respond(400, ErrorsBody(errors.value));
    }
    var found := db.FindUniqueByEmail(Text(body, "email"));
    if found.None? {
      return Respond(404, Errors("email", "User not found"));
    }
    var u := found.value;
    var updated := db.Update(u.id, NoChange.(resetToken := Some(Some(freshToken)),
                                             resetTokenExpires := Some(Some(now + ResetWindow))));
    assert updated.Success?;
    reply := Respond(200, MessageBody("Password reset link sent"));
  }

  /** `resetPassword`: a 400 'Invalid or expired token' unless some record holds
      `token` with an expiry strictly after `now`; then that record's password becomes
      the digest of the new one and both reset fields are cleared, nothing else
      changing. */
  method ResetPassword(db: UserStore, env: Env, body: Body, token: string, now: int)
    returns (reply: Reply)
    requires db.Valid()
    modifies db
    ensures db.Valid()
    ensures db.nextId == old(db.nextId)
    ensures ResetFieldsPaired(old(db.users)) ==> ResetFieldsPaired(db.users)
    ensures RolesWithin(old(db.users), env.roles) ==> RolesWithin(db.users, env.roles)
    ensures var details := Validate(ResetSchema, body, env.isEmail);
      if details != [] then
        reply == Respond(400, ErrorsBody(ErrorMap(details))) && db.users == old(db.users)
      else if !TokenLive(old(db.users), token, now) then
        reply == InvalidToken && db.users == old(db.users)
      else
        reply == Respond(200, MessageBody("Password reset successful"))
        && exists i | i in old(db.users) && ResetMatches(old(db.users)[i], token, now) ::
             db.users == old(db.users)[i := Consumed(old(db.users)[i], env.hash(Text(body, "password")))]
  {
    var errors := ValidateRequest(ResetSchema, body, env.isEmail);
    if errors.Some? {
      return Respond(400, ErrorsBody(errors.value));
    }
    var found := db.FindFirstResetHolder(token, now);
    if found.None? {
      return InvalidToken;
    }
    var u := found.value;
    var hashed := env.hash(Text(body, "password"));
    var updated := db.Update(u.id, NoChange.(password := Some(hashed), resetToken := Some(None),
                                             resetTokenExpires := Some(None)));
    assert updated.Success?;
    reply := Respond(200, MessageBody("Password reset successful"));
  }

  /** An issued token opens a reset strictly before its expiry, one hour later, and not
      at or after it. */
  lemma IssuedTokenWindow(u: User, token: string, issuedAt: int, now: int)
    ensures ResetMatches(Issued(u, token, issuedAt), token, now) <==> now < issuedAt + ResetWindow
  {
  }

  /** Issuing a new token supersedes the earlier one for that record. */
  lemma ReissueSupersedes(u: User, earlier: string, newer: string, issuedAt: int, now: int)
    requires earlier != newer
    ensures !ResetMatches(Issued(u, newer, issuedAt), earlier, now)
  {
  }

  /** A consumed token is dead: when the consumed record was its only holder, no record
      matches it afterwards, at any time, so a second reset with it is refused. */
  lemma ConsumedTokenIsDead(users: map<nat, User>, i: nat, token: string, digest: string, later: int)
    requires i in users
    requires forall j | j in users && j != i :: users[j].resetToken != Some(token)
    ensures !TokenLive(users[i := Consumed(users[i], digest)], token, later)
  {
    var after := users[i := Consumed(users[i], digest)];
    forall j | j in after
      ensures !ResetMatches(after[j], token, later)
    {
      if j != i {
        assert after[j] == users[j];
      }
    }
  }

  /** Forgot-password and reset-password keep the two reset fields paired. */
  lemma IssuedAndConsumedPaired(u: User, token: string, now: int, digest: string)
    ensures Issued(u, token, now).resetToken.Some? && Issued(u, token, now).resetTokenExpires.Some?
    ensures Consumed(u, digest).resetToken.None? && Consumed(u, digest).resetTokenExpires.None?
  {
  }
}
