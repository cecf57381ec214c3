/** The permission-check middleware of src/middleware/acl.js. The permission service
    it consults (services/aclService) is not part of this model: its answer for a user
    and a permission is the parameter `hasPermission`. */
module Acl {
  import opened Common
  import opened Records
  import opened Http
  import Permissions

  /** The awaited result of `aclService.hasPermission(user, permission)`: a truthy or
      falsy value, or an exception. */
  datatype Check = Answer(granted: bool) | Throws

  /** The argument the middleware passes to `next`: None for `next()`, Some(err) for
      `next(err)`. */
  function Authorize(permission: string, principal: Option<User>,
                     hasPermission: (User, string) -> Check): (nextArg: Option<Error>)
    ensures nextArg.None? <==>
      principal.Some? && principal.value.role != ""
      && hasPermission(principal.value, permission) == Answer(true)
    ensures nextArg.Some? ==> nextArg.value.HttpError? && nextArg.value.status in {403, 500}
  {
    if principal.None? || principal.value.role == "" then
      Some(HttpError(403, "User role not found"))
    else
      match hasPermission(principal.value, permission)
      case Answer(granted) =>
        if granted then None else Some(HttpError(403, "Insufficient permissions"))
      case Throws => Some(HttpError(500, "Error checking permissions"))
  }

  /** Without a user or a role the answer is 403 'User role not found', whatever the
      permission service would say: it is not consulted. */
  lemma NoRoleNotConsulted(permission: string, principal: Option<User>,
                           p1: (User, string) -> Check, p2: (User, string) -> Check)
    requires principal.None? || principal.value.role == ""
    ensures Authorize(permission, principal, p1) == Some(HttpError(403, "User role not found"))
    ensures Authorize(permission, principal, p1) == Authorize(permission, principal, p2)
  {
  }

  /** With a role, a false answer is 403 'Insufficient permissions' and an exception
      is 500 'Error checking permissions'. */
  lemma DeniedOrFailed(permission: string, u: User, hasPermission: (User, string) -> Check)
    requires u.role != ""
    ensures hasPermission(u, permission) == Answer(false) ==>
      Authorize(permission, Some(u), hasPermission) == Some(HttpError(403, "Insufficient permissions"))
    ensures hasPermission(u, permission) == Throws ==>
      Authorize(permission, Some(u), hasPermission) == Some(HttpError(500, "Error checking permissions"))
  {
  }

  /** The permission table read as a permission service. */
  function TableCheck(u: User, permission: string): Check {
    Answer(Permissions.Grants(permission, u.role))
  }

  /** Backed by the table, the middleware passes a request exactly when the table
      grants the permission to the user's (non-empty) role: a name without an entry,
      such as 'users.export', passes nobody. */
  lemma TableBacked(permission: string, principal: Option<User>)
    ensures Authorize(permission, principal, TableCheck).None? <==>
      principal.Some? && principal.value.role != ""
      && Permissions.Grants(permission, principal.value.role)
    ensures permission !in Permissions.Table ==> Authorize(permission, principal, TableCheck).Some?
  {
  }
}
