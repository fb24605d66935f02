/** The authorization middleware: reading the bearer token, and the admin and
    owner-or-admin checks. Token verification and the user lookup are parameters. */
module Auth {
  import opened Text
  import opened Results

  datatype User = User(id: string, name: string, email: string, role: string)

  /** What a middleware does with a request: answer it with a status and a message,
      or pass it on with `next()`. */
  datatype Decision = Respond(status: nat, message: string) | Next

  /** `authenticate`: refuse with 401, or pass on with the user attached to the request. */
  datatype Authentication = Refuse(status: nat, message: string, error: Option<string>) | Attach(user: User)

  const BearerPrefix := "Bearer "
  const AdminRole := "admin"
  const AuthenticationRequired := "Authentication required"
  const InvalidAuthentication := "Invalid authentication"
  const AuthenticationFailed := "Authentication failed"
  const AdminRequired := "Access denied. Admin privileges required."
  const OwnDataOnly := "Access denied. You can only access your own data."

  /** `String.prototype.replace` with a string pattern: the first occurrence of
      `pattern` replaced by `replacement`, or `s` unchanged when it does not occur. */
  function ReplaceFirst(s: string, pattern: string, replacement: string): string {
    var k := IndexOf(s, pattern);
    if k < 0 then s else s[..k] + replacement + s[k + |pattern|..]
  }

  /** `req.header("Authorization")?.replace("Bearer ", "")`; an absent header gives
      no token. */
  function Token(header: Option<string>): Option<string> {
    match header
    case None => None
    case Some(h) => Some(ReplaceFirst(h, BearerPrefix, ""))
  }

  /** `authenticate`. `verify` stands for `jwt.verify` (the decoded user id, or the
      error it throws) and `findUser` for `User.findByPk` (the user, none, or the error
      it throws). */
  function Authenticate(header: Option<string>, verify: string -> Outcome<string>,
                        findUser: string -> Outcome<Option<User>>): Authentication
  {
    var token := Token(header);
    if token.None? || token.value == "" then Refuse(401, AuthenticationRequired, None)
    else
      match verify(token.value)
      case Fail(e) => Refuse(401, AuthenticationFailed, Some(e))
      case Ok(id) =>
        match findUser(id)
        case Fail(e) => Refuse(401, AuthenticationFailed, Some(e))
        case Ok(None) => Refuse(401, InvalidAuthentication, None)
        case Ok(Some(user)) => Attach(user)
  }

  /** `isAdmin`. */
  function IsAdmin(user: Option<User>): Decision {
    if user.None? then Respond(401, AuthenticationRequired)
    else if user.value.role != AdminRole then Respond(403, AdminRequired)
    else Next
  }

  /** `isUserOrAdmin` for a request whose route parameter `id` is `paramId`. */
  function IsUserOrAdmin(user: Option<User>, paramId: string): Decision {
    if user.None? then Respond(401, AuthenticationRequired)
    else if user.value.id == paramId || user.value.role == AdminRole then Next
    else Respond(403, OwnDataOnly)
  }

  // ---------------------------------------------------------------------------
  // Properties
  // ---------------------------------------------------------------------------

  /** A header `Bearer <t>` gives the token `t`. */
  lemma BearerTokenRead(t: string)
    ensures Token(Some(BearerPrefix + t)) == Some(t)
  {
    var h := BearerPrefix + t;
    assert h[..|BearerPrefix|] == BearerPrefix;
    assert IndexOf(h, BearerPrefix) == 0;
    assert h[..0] + "" + h[|BearerPrefix|..] == t;
  }

  /** Only the first `Bearer ` is removed, wherever it is; a header without one is
      taken whole as the token. */
  lemma TokenRemovesFirstPrefix(h: string)
    ensures !Contains(h, BearerPrefix) ==> Token(Some(h)) == Some(h)
    ensures Contains(h, BearerPrefix) ==>
      && IndexOf(h, BearerPrefix) >= 0
      && var k := IndexOf(h, BearerPrefix);
      && OccursAt(h, BearerPrefix, k)
      && (forall j: nat :: j < k ==> !OccursAt(h, BearerPrefix, j))
      && Token(Some(h)) == Some(h[..k] + h[k + |BearerPrefix|..])
      && |Token(Some(h)).value| == |h| - |BearerPrefix|
  {
    IndexOfFinds(h, BearerPrefix);
    var k := IndexOf(h, BearerPrefix);
    if k >= 0 {
      assert h[..k] + "" + h[k + |BearerPrefix|..] == h[..k] + h[k + |BearerPrefix|..];
    }
  }

  /** Without a token, or with an empty one, the request is refused with 401 and
      neither the verifier nor the lookup is consulted. */
  lemma NoTokenRefused(header: Option<string>, verify: string -> Outcome<string>,
                       findUser: string -> Outcome<Option<User>>,
                       verify': string -> Outcome<string>,
                       findUser': string -> Outcome<Option<User>>)
    requires Token(header).None? || Token(header).value == ""
    ensures Authenticate(header, verify, findUser) == Refuse(401, AuthenticationRequired, None)
    ensures Authenticate(header, verify, findUser) == Authenticate(header, verify', findUser')
  {
  }

  /** A request passes `authenticate` exactly when its token is non-empty, verifies,
      and names a user who exists; that user is the one attached. */
  lemma AuthenticatedUser(header: Option<string>, verify: string -> Outcome<string>,
                          findUser: string -> Outcome<Option<User>>)
    ensures Authenticate(header, verify, findUser).Attach? <==>
      && Token(header).Some? && Token(header).value != ""
      && verify(Token(header).value).Ok?
      && findUser(verify(Token(header).value).value).Ok?
      && findUser(verify(Token(header).value).value).value.Some?
    ensures Authenticate(header, verify, findUser).Attach? ==>
      Ok(Some(Authenticate(header, verify, findUser).user)) == findUser(verify(Token(header).value).value)
    ensures Authenticate(header, verify, findUser).Refuse? ==>
      Authenticate(header, verify, findUser).status == 401
  {
  }

  /** `isAdmin` answers 401 without a user, 403 for a user who is not an admin, and
      passes exactly the admins on. */
  lemma AdminDecisions(user: Option<User>)
    ensures IsAdmin(user) == Next <==> user.Some? && user.value.role == AdminRole
    ensures user.None? ==> IsAdmin(user) == Respond(401, AuthenticationRequired)
    ensures user.Some? && user.value.role != AdminRole ==> IsAdmin(user) == Respond(403, AdminRequired)
  {
  }

  /** `isUserOrAdmin` answers 401 without a user whatever the id, and otherwise passes
      the request on exactly for the user named by the route or an admin. */
  lemma OwnerOrAdminDecisions(user: Option<User>, paramId: string)
    ensures user.None? ==> IsUserOrAdmin(user, paramId) == Respond(401, AuthenticationRequired)
    ensures IsUserOrAdmin(user, paramId) == Next <==>
      user.Some? && (user.value.id == paramId || user.value.role == AdminRole)
    ensures user.Some? && IsUserOrAdmin(user, paramId) != Next ==>
      IsUserOrAdmin(user, paramId) == Respond(403, OwnDataOnly)
  {
  }

  /** Whoever passes `isAdmin` passes `isUserOrAdmin` for every id, and both refuse a
      request without a user alike. */
  lemma AdminPassesOwnerCheck(user: Option<User>, paramId: string)
    ensures IsAdmin(user) == Next ==> IsUserOrAdmin(user, paramId) == Next
    ensures user.None? ==> IsAdmin(user) == IsUserOrAdmin(user, paramId)
  {
  }
}
