/** The permission table of src/config/permissions.js: a constant map from a
    permission name to the roles it is granted to. */
module Permissions {

  const Table: map<string, seq<string>> := map[
    "users.read" := ["admin", "user"],
    "users.write" := ["admin"],
    "users.delete" := ["admin"],
    "auth.login" := ["guest", "user", "admin"],
    "auth.register" := ["guest"]
  ]

  /** A role holds a permission when the table names the permission and lists the
      role; an unknown name grants nothing (fail closed), and roles do not inherit
      from one another. */
  predicate Grants(permission: string, role: string) {
    permission in Table && role in Table[permission]
  }

  /** The table defines exactly five permission names. */
  lemma FiveNames()
    ensures Table.Keys == {"users.read", "users.write", "users.delete", "auth.login", "auth.register"}
    ensures |Table| == 5
  {
    assert Table.Keys == {"users.read", "users.write", "users.delete", "auth.login", "auth.register"};
  }

  /** 'users.read' goes to exactly admin and user. */
  lemma UsersRead(role: string)
    ensures Grants("users.read", role) <==> role == "admin" || role == "user"
  {
  }

  /** 'users.write' and 'users.delete' go to admin only. */
  lemma UsersWriteDelete(role: string)
    ensures Grants("users.write", role) <==> role == "admin"
    ensures Grants("users.delete", role) <==> role == "admin"
  {
  }

  /** 'auth.login' goes to guest, user and admin. */
  lemma AuthLogin(role: string)
    ensures Grants("auth.login", role) <==> role in {"guest", "user", "admin"}
  {
  }

  /** 'auth.register' goes to guest only: there is no hierarchy lifting admin over it. */
  lemma AuthRegister(role: string)
    ensures Grants("auth.register", role) <==> role == "guest"
    ensures !Grants("auth.register", "admin")
  {
  }

  /** 'users.export', which the listing checks, has no entry, so no role holds it. */
  lemma ExportHasNoEntry(role: string)
    ensures "users.export" !in Table
    ensures !Grants("users.export", role)
  {
    FiveNames();
  }
}
