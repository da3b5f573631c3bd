/**
 * What the route handlers answer with (NextResponse.json bodies, statuses and the Set-Cookie of signup) and the
 * check chain the two protected routes share: auth-token cookie, then verifyToken, then the body, then
 * ownership of the session (app/api/protected/components/route.ts:7-23, app/api/protected/chat/route.ts:11-27).
 */
module Http {
  import opened Common
  import opened Tables
  import opened Auth

  /** The cookie that carries the session token. */
  const AUTH_COOKIE := "auth-token"

  datatype SameSite = Lax

  /** response.cookies.set(name, value, options). */
  datatype Cookie = Cookie(name: string, value: string, httpOnly: bool, secure: bool, sameSite: SameSite, maxAge: nat)

  /** JSON bodies the handlers produce. */
  datatype Body =
    | Error(error: string)
    | Component(component: VersionRow)
    | Account(message: string, user: AuthUser)

  /** NextResponse.json(body, { status }) with an optional cookie; the status defaults to 200. */
  datatype Response = Json(status: int, body: Body, setCookie: Option<Cookie>)

  const UNAUTHORIZED := Json(401, Error("Unauthorized"), None)
  const INVALID_TOKEN := Json(401, Error("Invalid token"), None)
  const SESSION_NOT_FOUND := Json(404, Error("Session not found"), None)
  /** What every handler's catch block answers, whatever was thrown. */
  const INTERNAL_ERROR := Json(500, Error("Internal server error"), None)

  /** A step of a handler's check chain: carry on with a value, or stop with this response. */
  datatype Checked<T> = Pass(value: T) | Stop(response: Response)

  /** Cookie, then token: a missing or empty cookie is 401 "Unauthorized", a token that fails is 401 "Invalid token". */
  function Authorize(token: Option<string>, jwtVerify: (string, nat) -> Option<JwtPayload>, now: nat)
    : (r: Checked<AuthUser>)
    ensures r.Stop? ==> r.response.status == 401
    ensures Falsy(token) ==> r == Stop(UNAUTHORIZED)
    ensures !Falsy(token) ==>
      && (r.Pass? <==> VerifyToken(jwtVerify, token.value, now).Some?)
      && (r.Pass? ==> Some(r.value) == VerifyToken(jwtVerify, token.value, now))
      && (r.Stop? ==> r == Stop(INVALID_TOKEN))
  {
    if Falsy(token) then Stop(UNAUTHORIZED)
    else match VerifyToken(jwtVerify, token.value, now)
      case None => Stop(INVALID_TOKEN)
      case Some(user) => Pass(user)
  }

  /**
   * db.getSession(sessionId, user.id): 404 unless the session exists and belongs to the caller.  A body without a
   * sessionId binds it to undefined, which matches no row.
   */
  function OwnedSession(sessions: seq<SessionRow>, sessionId: Option<int>, user: AuthUser): (r: Checked<SessionRow>)
    ensures r.Pass? <==> sessionId.Some? && exists i | 0 <= i < |sessions| ::
      sessions[i].id == sessionId.value && sessions[i].userId == user.id
    ensures r.Pass? ==> r.value in sessions && r.value.id == sessionId.value && r.value.userId == user.id
    ensures r.Stop? ==> r == Stop(SESSION_NOT_FOUND)
  {
    if sessionId.None? then Stop(SESSION_NOT_FOUND)
    else match SessionFor(sessions, sessionId.value, user.id)
      case None => Stop(SESSION_NOT_FOUND)
      case Some(s) => Pass(s)
  }

  /**
   * The whole check chain of a protected route before it touches the store: cookie, token, body (`parsed` is false
   * when request.json() threw, which the catch answers with 500), then ownership of the body's session.  A pass
   * carries the id of a session the caller owns.
   */
  function Admit(sessions: seq<SessionRow>, token: Option<string>, jwtVerify: (string, nat) -> Option<JwtPayload>,
                 now: nat, parsed: bool, sessionId: Option<int>): (r: Checked<int>)
    ensures Authorize(token, jwtVerify, now).Stop? ==> r == Stop(Authorize(token, jwtVerify, now).response)
    ensures Authorize(token, jwtVerify, now).Pass? && !parsed ==> r == Stop(INTERNAL_ERROR)
    ensures Authorize(token, jwtVerify, now).Pass? && parsed ==>
      && (r.Pass? <==> OwnedSession(sessions, sessionId, Authorize(token, jwtVerify, now).value).Pass?)
      && (r.Stop? ==> r == Stop(SESSION_NOT_FOUND))
    ensures r.Pass? ==> sessionId == Some(r.value) && exists k | 0 <= k < |sessions| :: sessions[k].id == r.value
  {
    match Authorize(token, jwtVerify, now)
    case Stop(resp) => Stop(resp)
    case Pass(user) =>
      if !parsed then Stop(INTERNAL_ERROR)
      else match OwnedSession(sessions, sessionId, user)
        case Stop(resp) => Stop(resp)
        case Pass(_) =>
          OwnedSessionExists(sessions, sessionId, user);
          Pass(sessionId.value)
  }

  /** A cookie holding a token issued at `now` passes the cookie and token checks for the next seven days. */
  lemma IssuedTokenAuthorizes(sign: SignRequest -> string, jwtVerify: (string, nat) -> Option<JwtPayload>,
                              user: AuthUser, now: nat, later: nat)
    requires SignsFaithfully(sign, jwtVerify)
    requires now <= later < now + TOKEN_LIFETIME
    ensures Authorize(Some(GenerateToken(sign, user, now)), jwtVerify, later) == Pass(user)
  {
    TokenRoundTrip(sign, jwtVerify, user, now, later);
  }

  /** A session the caller owns is one the store knows, so the foreign key of the write that follows holds. */
  lemma OwnedSessionExists(sessions: seq<SessionRow>, sessionId: Option<int>, user: AuthUser)
    requires OwnedSession(sessions, sessionId, user).Pass?
    ensures exists i | 0 <= i < |sessions| :: sessions[i].id == sessionId.value
  {
    var s := OwnedSession(sessions, sessionId, user).value;
    var i :| 0 <= i < |sessions| && sessions[i] == s;
  }
}
