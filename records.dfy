/** The one persisted entity, the user record, and the two projections the handlers
    send back: the profile (`select` of src/controllers/profileController.js) and the
    listing row (`select` of src/controllers/userController.js). Times are integer
    milliseconds. */
module Records {
  import opened Common

  datatype User = User(
    id: nat,
    name: string,
    email: string,
    password: string,              // the stored bcrypt digest
    role: string,
    active: bool,
    lastLogin: Option<int>,
    resetToken: Option<string>,
    resetTokenExpires: Option<int>,
    createdAt: int,
    updatedAt: int)

  /** `id, name, email, role, active, createdAt, updatedAt`: no password, no reset
      fields, no lastLogin. */
  datatype Profile = Profile(
    id: nat, name: string, email: string, role: string, active: bool,
    createdAt: int, updatedAt: int)

  /** `id, name, email, role, active, lastLogin`: the row of the admin listing. */
  datatype Summary = Summary(
    id: nat, name: string, email: string, role: string, active: bool,
    lastLogin: Option<int>)

  function ProfileOf(u: User): Profile {
    Profile(u.id, u.name, u.email, u.role, u.active, u.createdAt, u.updatedAt)
  }

  function SummaryOf(u: User): Summary {
    Summary(u.id, u.name, u.email, u.role, u.active, u.lastLogin)
  }

  /** Two records that differ at most in their secrets and their lastLogin. */
  predicate SameButSecrets(u: User, v: User) {
    u.(password := v.password, resetToken := v.resetToken,
       resetTokenExpires := v.resetTokenExpires, lastLogin := v.lastLogin) == v
  }

  /** The profile carries nothing of the password, the reset fields or lastLogin:
      records that differ only there project to the same profile. */
  lemma ProfileHidesSecrets(u: User, v: User)
    requires SameButSecrets(u, v)
    ensures ProfileOf(u) == ProfileOf(v)
  {
  }

  /** The listing row carries nothing of the password or the reset fields. */
  lemma SummaryHidesSecrets(u: User, v: User)
    requires u.(password := v.password, resetToken := v.resetToken,
                resetTokenExpires := v.resetTokenExpires) == v
    ensures SummaryOf(u) == SummaryOf(v)
  {
  }
}
