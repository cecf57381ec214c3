/** The self-service handlers of src/controllers/profileController.js, acting on the
    record of the authenticated user (`req.user.id`). updateProfile and changePassword
    call `validateRequest` and ignore what it returns, so their schemas refuse nothing:
    the handlers below never consult them. */
module ProfileController {
  import opened Common
  import opened Strings
  import opened Records
  import opened Config
  import opened Http
  import opened Joi
  import opened Store

  const UserNotFound: Reply := Respond(404, Errors("message", "User not found"))

  /** The schemas the two updating handlers build and then disregard. */
  const ProfileSchema: Schema := [StringKey("name", [], false), StringKey("email", [Email], false)]

  const OwnPasswordSchema: Schema :=
    [StringKey("currentPassword", [], true), StringKey("newPassword", [MinLength(6)], true)]

  /** What bcrypt throws for an argument that is not a string. Its wording is not part
      of this model; the message is a fixed stand-in. */
  const IllegalArguments: Error := Fault(None, "Illegal arguments")

  /** `getProfile`: the projection of the caller's record, or a 404 'User not found'. */
  function GetProfile(users: map<nat, User>, userId: nat): (reply: Reply)
    requires KeyedById(users)
    ensures reply.Respond?
    ensures userId in users <==> reply.status == 200
    ensures userId !in users ==> reply == UserNotFound
    ensures userId in users ==> reply.payload == ProfileBody(ProfileOf(users[userId]))
    ensures userId in users ==> reply.payload.ProfileBody? && reply.payload.profile.id == userId
  {
    if userId in users then Respond(200, ProfileBody(ProfileOf(users[userId])))
    else UserNotFound
  }

  /** Whatever the caller's password, reset token or lastLogin, the profile answer is the
      same: none of them is ever sent. */
  lemma GetProfileHidesSecrets(users: map<nat, User>, userId: nat, other: User)
    requires KeyedById(users) && userId in users
    requires SameButSecrets(users[userId], other)
    ensures GetProfile(users, userId) == GetProfile(users[userId := other], userId)
  {
    ProfileHidesSecrets(users[userId], other);
  }

  /** `...(v && { key: v })`: a member is written only when its value is truthy. */
  predicate Written(body: Body, key: string) {
    Lookup(body, key).Some? && Truthy(Lookup(body, key).value)
  }

  /** The written members are strings, as the string columns demand. */
  predicate ProfileTyped(body: Body) {
    && (Written(body, "name") ==> StringAt(body, "name").Some?)
    && (Written(body, "email") ==> StringAt(body, "email").Some?)
  }

  /** The `data` of updateProfile's `update`: a truthy name and a truthy email. */
  function ProfilePatch(body: Body): Patch {
    NoChange.(name := if Written(body, "name") then Some(Text(body, "name")) else None,
              email := if Written(body, "email") then Some(Text(body, "email")) else None)
  }

  /** The update writes the name only when a truthy one is given, the email likewise,
      and leaves every other column as it was. */
  lemma ProfilePatchOnlyNameAndEmail(u: User, body: Body)
    ensures var v := Apply(u, ProfilePatch(body));
      && v == u.(name := v.name, email := v.email)
      && (Written(body, "name") <==> ProfilePatch(body).name.Some?)
      && (!Written(body, "name") ==> v.name == u.name)
      && (!Written(body, "email") ==> v.email == u.email)
      && (StringAt(body, "name").Some? && Text(body, "name") != "" ==> v.name == Text(body, "name"))
      && (StringAt(body, "email").Some? && Text(body, "email") != "" ==> v.email == Text(body, "email"))
  {
  }

  /** An address the email rule refuses is stored all the same: the schema reports it,
      and the update writes it. */
  lemma InvalidEmailStillWritten(email: string, isEmail: string -> bool)
    requires email != "" && !isEmail(email)
    ensures Validate(ProfileSchema, [("email", JString(email))], isEmail) != []
    ensures ProfileTyped([("email", JString(email))])
    ensures ProfilePatch([("email", JString(email))]).email == Some(email)
  {
    var body := [("email", JString(email))];
    assert Lookup(body, "email") == Some(JString(email));
    assert Email in ProfileSchema[1].kind.checks;
    FieldDetailsConforms(ProfileSchema[1], Lookup(body, "email"), isEmail);
    assert FieldDetails(ProfileSchema[1], Lookup(body, "email"), isEmail) != [];
    assert KeyDetails(ProfileSchema, body, isEmail)
        == FieldDetails(ProfileSchema[0], Lookup(body, "name"), isEmail)
           + KeyDetails(ProfileSchema[1..], body, isEmail);
  }

  /** `updateProfile`: a truthy value that is not a string is refused by the database; a
      missing caller record and any error but P2002 reach `next`; an email held by another
      record is a 400 'Email already exists'; otherwise only the name and email are
      written and the new profile is sent. */
  method UpdateProfile(db: UserStore, userId: nat, body: Body) returns (reply: Reply)
    requires db.Valid()
    modifies db
    ensures db.Valid()
    ensures db.nextId == old(db.nextId)
    ensures ResetFieldsPaired(old(db.users)) ==> ResetFieldsPaired(db.users)
    ensures forall roles: seq<string> :: RolesWithin(old(db.users), roles) ==> RolesWithin(db.users, roles)
    ensures var p := ProfilePatch(body);
      if !ProfileTyped(body) then
        reply == Next(Thrown(InvalidArgument)) && db.users == old(db.users)
      else if userId !in old(db.users) then
        reply == Next(Thrown(RecordNotFound)) && db.users == old(db.users)
      else if p.email.Some? && EmailTakenByOther(old(db.users), p.email.value, userId) then
        reply == Respond(400, Errors("message", "Email already exists")) && db.users == old(db.users)
      else
        var u := Apply(old(db.users)[userId], p);
        reply == Respond(200, ProfileBody(ProfileOf(u))) && db.users == old(db.users)[userId := u]
  {
    if !ProfileTyped(body) {
      return Next(Thrown(InvalidArgument));
    }
    var updated := db.Update(userId, ProfilePatch(body));
    match updated
    case Failure(e) =>
      if e == UniqueViolation {
        reply := Respond(400, Errors("message", "Email already exists"));
      } else {
        reply := Next(Thrown(e));
      }
    case Success(u) =>
      reply := Respond(200, ProfileBody(ProfileOf(u)));
  }

  /** A body member bcrypt accepts: a string. */
  predicate IsString(v: Option<Json>) {
    v.Some? && v.value.JString?
  }

  /** A new password under six UTF-16 code units breaks the schema, which is not enforced. */
  lemma ShortNewPasswordUnchecked(current: string, newPassword: string, isEmail: string -> bool)
    requires Utf16Length(newPassword) < 6
    ensures Validate(OwnPasswordSchema, [("currentPassword", JString(current)),
                                         ("newPassword", JString(newPassword))], isEmail) != []
  {
    var body := [("currentPassword", JString(current)), ("newPassword", JString(newPassword))];
    assert Lookup(body, "newPassword") == Some(JString(newPassword));
    assert MinLength(6) in OwnPasswordSchema[1].kind.checks;
    FieldDetailsConforms(OwnPasswordSchema[1], Lookup(body, "newPassword"), isEmail);
    assert KeyDetails(OwnPasswordSchema, body, isEmail)
        == FieldDetails(OwnPasswordSchema[0], Lookup(body, "currentPassword"), isEmail)
           + KeyDetails(OwnPasswordSchema[1..], body, isEmail);
  }

  /** The caller's `changePassword`: a 404 when the record is gone; a 401 'Current
      password is incorrect' unless the current password matches the stored digest; a
      non-string password reaches `next` from bcrypt; otherwise only the password
      changes, to the digest of the new one. */
  method ChangeOwnPassword(db: UserStore, env: Env, userId: nat, body: Body) returns (reply: Reply)
    requires db.Valid()
    modifies db
    ensures db.Valid()
    ensures db.nextId == old(db.nextId)
    ensures ResetFieldsPaired(old(db.users)) ==> ResetFieldsPaired(db.users)
    ensures forall roles: seq<string> :: RolesWithin(old(db.users), roles) ==> RolesWithin(db.users, roles)
    ensures var current, newer := Lookup(body, "currentPassword"), Lookup(body, "newPassword");
      if userId !in old(db.users) then
        reply == UserNotFound && db.users == old(db.users)
      else if !IsString(current) then
        reply == Next(IllegalArguments) && db.users == old(db.users)
      else if !env.Verify(current.value.s, old(db.users)[userId].password) then
        reply == Respond(401, Errors("message", "Current password is incorrect"))
        && db.users == old(db.users)
      else if !IsString(newer) then
        reply == Next(IllegalArguments) && db.users == old(db.users)
      else
        reply == Respond(200, MessageBody("Password changed successfully"))
        && db.users == old(db.users)[userId := old(db.users)[userId].(password := env.hash(newer.value.s))]
  {
    var current, newer := Lookup(body, "currentPassword"), Lookup(body, "newPassword");
    var found := db.FindUniqueById(userId);
    if found.None? {
      return UserNotFound;
    }
    if !IsString(current) {
      return Next(IllegalArguments);
    }
    if !env.Verify(current.value.s, found.value.password) {
      return Respond(401, Errors("message", "Current password is incorrect"));
    }
    if !IsString(newer) {
      return Next(IllegalArguments);
    }
    var updated := db.Update(userId, NoChange.(password := Some(env.hash(newer.value.s))));
    assert updated.Success?;
    reply := Respond(200, MessageBody("Password changed successfully"));
  }
}
