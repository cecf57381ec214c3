/** What the handlers take from their collaborators and configuration, injected as one
    value: bcrypt, Joi's email syntax check, jsonwebtoken's signing, the default role of
    src/config/config.js and the role list of config/roles (not part of this model). */
module Config {

  datatype Env = Env(
    hash: string -> string,     // bcrypt.hash(password, 10), salt and cost abstracted
    isEmail: string -> bool,    // Joi.string().email()
    sign: nat -> string,        // jwt.sign({ userId }, secret, { expiresIn })
    defaultUserRole: string,    // config.defaultUserRole
    roles: seq<string>)         // Object.values(roles)
  {
    /** bcrypt.compare(plain, digest): the digest is that of the plain text. */
    predicate Verify(plain: string, digest: string) {
      hash(plain) == digest
    }
  }
}
