/** The bearer-token middleware of src/middleware/auth.js. jsonwebtoken's verification
    is the parameter `verify`: the `userId` claim of a token it accepts, None when it
    throws (bad signature, expired, malformed) or the claim is unusable. */
module AuthMiddleware {
  import opened Common
  import opened Strings
  import opened Records
  import opened Http

  /** `req.headers.authorization?.split(' ')[1]`, kept only when truthy: the second
      space-separated piece of the header. */
  function BearerToken(header: Option<string>): (token: Option<string>)
    ensures token.Some? ==> header.Some? && token.value != "" && ' ' !in token.value
    ensures token.Some? ==>
      |Split(header.value, ' ')| >= 2 && token.value == Split(header.value, ' ')[1]
    ensures header.Some? && |Split(header.value, ' ')| >= 2 && Split(header.value, ' ')[1] != "" ==>
      token.Some?
  {
    match header
    case None => None
    case Some(h) =>
      var parts := Split(h, ' ');
      if |parts| < 2 || parts[1] == "" then None else Some(parts[1])
  }

  /** The middleware's outcome: `req.user` set and `next()`, or `next(err)`. */
  datatype Verdict = Authenticated(user: User) | Rejected(error: Error)

  const Unauthorized: Error := HttpError(401, "Unauthorized")

  /** The id the header's token verifies to, when it is the key of a stored user. */
  function StoredClaim(header: Option<string>, verify: string -> Option<int>,
                       users: map<nat, User>): (id: Option<nat>)
    ensures id.Some? ==> id.value in users
    ensures id.Some? ==>
      BearerToken(header).Some? && verify(BearerToken(header).value) == Some(id.value as int)
    ensures (&& BearerToken(header).Some? && verify(BearerToken(header).value).Some?
             && 0 <= verify(BearerToken(header).value).value
             && verify(BearerToken(header).value).value as nat in users) ==> id.Some?
  {
    match BearerToken(header)
    case None => None
    case Some(token) =>
      match verify(token)
      case None => None
      case Some(claim) => if 0 <= claim && claim as nat in users then Some(claim as nat) else None
  }

  /** Every failure, whatever its cause, is the same 401 'Unauthorized'; a request
      passes exactly when its token verifies to the id of a stored user, and then
      carries that stored record. */
  function Authenticate(header: Option<string>, verify: string -> Option<int>,
                        users: map<nat, User>): (v: Verdict)
    ensures v.Rejected? ==> v.error == Unauthorized
    ensures v.Authenticated? <==> StoredClaim(header, verify, users).Some?
    ensures v.Authenticated? ==> v.user == users[StoredClaim(header, verify, users).value]
  {
    match BearerToken(header)
    case None => Rejected(Unauthorized)
    case Some(token) =>
      match verify(token)
      case None => Rejected(Unauthorized)
      case Some(id) =>
        if 0 <= id && id as nat in users then Authenticated(users[id as nat])
        else Rejected(Unauthorized)
  }

  /** The scheme word is never checked: any space-free word in front of the token
      gives the token. */
  lemma AnyScheme(scheme: string, token: string)
    requires ' ' !in scheme && ' ' !in token && token != ""
    ensures BearerToken(Some(scheme + " " + token)) == Some(token)
  {
    SplitPair(scheme, token, ' ');
  }

  /** Pieces after the second are ignored. */
  lemma ExtraPiecesIgnored(scheme: string, token: string, rest: string)
    requires ' ' !in scheme && ' ' !in token && token != ""
    ensures BearerToken(Some(scheme + " " + token + " " + rest)) == Some(token)
  {
    SplitPrefix(token, rest, ' ');
    SplitPrefix(scheme, token + " " + rest, ' ');
    assert scheme + " " + token + " " + rest == scheme + [' '] + (token + [' '] + rest);
  }

  /** An absent header, or one without a space, has no token. */
  lemma NoSpaceNoToken(header: Option<string>)
    requires header.Some? ==> ' ' !in header.value
    ensures BearerToken(header).None?
  {
    if header.Some? {
      SplitNone(header.value, ' ');
    }
  }

  /** A double space leaves an empty second piece, which counts as missing. */
  lemma DoubleSpaceNoToken(scheme: string, rest: string)
    requires ' ' !in scheme
    ensures BearerToken(Some(scheme + "  " + rest)) == None
  {
    SplitPrefix(scheme, " " + rest, ' ');
    SplitPrefix("", rest, ' ');
    assert scheme + "  " + rest == scheme + [' '] + (" " + rest);
    assert "" + [' '] + rest == " " + rest;
  }

  /** A header with a space in it always has a second piece, and the token is that
      piece unless it is empty. */
  lemma SpacedHeader(h: string)
    requires ' ' in h
    ensures |Split(h, ' ')| >= 2
    ensures BearerToken(Some(h)) == if Split(h, ' ')[1] == "" then None else Some(Split(h, ' ')[1])
  {
    SplitSome(h, ' ');
  }

  /** A header ending in its first space leaves an empty second piece: no token. */
  lemma TrailingSpaceNoToken(scheme: string)
    requires ' ' !in scheme
    ensures BearerToken(Some(scheme + " ")) == None
  {
    SplitPrefix(scheme, "", ' ');
    assert scheme + " " == scheme + [' '] + "";
  }

  /** A request without a usable token is refused before the token service or the
      store is consulted. */
  lemma NoTokenNotConsulted(header: Option<string>, v1: string -> Option<int>, v2: string -> Option<int>,
                            u1: map<nat, User>, u2: map<nat, User>)
    requires BearerToken(header).None?
    ensures Authenticate(header, v1, u1) == Authenticate(header, v2, u2) == Rejected(Unauthorized)
  {
  }
}
