/**
 * The edge middleware of middleware.ts: which requests it sees (config.matcher) and what it decides for them.
 * The decision reads only the pathname, the auth-token cookie and verifyToken's answer; it has no access to
 * the store, which is visible from its signature.
 */
module Guard {
  import opened Common
  import opened Auth

  /** NextResponse.next(), or a redirect to /login that may also delete the auth-token cookie. */
  datatype Outcome = Continue | RedirectToLogin(deleteCookie: bool)

  /** Paths that never require a token. */
  const PUBLIC_ROUTES: seq<string> := ["/login", "/signup", "/"]

  /** The two `:path*` scopes of config.matcher. */
  const PLAYGROUND := "/playground"
  const PROTECTED_API := "/api/protected"

  /**
   * middleware: public paths pass; otherwise a missing or empty cookie redirects, a token that fails
   * verification redirects and deletes the cookie, and a verified token passes with the cookie untouched.
   */
  function Middleware(pathname: string, token: Option<string>,
                      jwtVerify: (string, nat) -> Option<JwtPayload>, now: nat): (r: Outcome)
    ensures pathname in PUBLIC_ROUTES ==> r == Continue
    ensures pathname !in PUBLIC_ROUTES ==>
      (r == Continue <==> !Falsy(token) && VerifyToken(jwtVerify, token.value, now).Some?)
    ensures pathname !in PUBLIC_ROUTES && Falsy(token) ==> r == RedirectToLogin(false)
    ensures pathname !in PUBLIC_ROUTES && !Falsy(token) && VerifyToken(jwtVerify, token.value, now).None? ==>
      r == RedirectToLogin(true)
  {
    if pathname in PUBLIC_ROUTES then Continue
    else if Falsy(token) then RedirectToLogin(false)
    else if VerifyToken(jwtVerify, token.value, now).None? then RedirectToLogin(true)
    else Continue
  }

  /** `base/:path*` matches the base itself and every path below it, and nothing else. */
  predicate UnderScope(base: string, pathname: string) {
    pathname == base || base + "/" <= pathname
  }

  /** config.matcher: the middleware runs only under /playground and /api/protected. */
  predicate Matched(pathname: string) {
    UnderScope(PLAYGROUND, pathname) || UnderScope(PROTECTED_API, pathname)
  }

  /** What a request meets at the edge: the middleware where the matcher applies, otherwise nothing. */
  function Guard(pathname: string, token: Option<string>,
                 jwtVerify: (string, nat) -> Option<JwtPayload>, now: nat): (r: Outcome)
    ensures !Matched(pathname) ==> r == Continue
    ensures Matched(pathname) ==>
      (r == Continue <==> !Falsy(token) && VerifyToken(jwtVerify, token.value, now).Some?)
  {
    if Matched(pathname) then
      MatchedIsPrivate(pathname);
      Middleware(pathname, token, jwtVerify, now)
    else Continue
  }

  /** No matched path is public, so the public-route exemption never fires behind the matcher. */
  lemma MatchedIsPrivate(pathname: string)
    requires Matched(pathname)
    ensures pathname !in PUBLIC_ROUTES
  {
    assert |pathname| >= |PLAYGROUND|;
  }

  /**
   * Under /api/protected the guard answers with a page redirect, not with a 401: a client calling the API
   * without a valid token is sent to /login.
   */
  lemma ApiWithoutTokenRedirects(pathname: string, token: Option<string>,
                                 jwtVerify: (string, nat) -> Option<JwtPayload>, now: nat)
    requires UnderScope(PROTECTED_API, pathname)
    ensures Falsy(token) ==> Guard(pathname, token, jwtVerify, now) == RedirectToLogin(false)
    ensures !Falsy(token) && VerifyToken(jwtVerify, token.value, now).None? ==>
      Guard(pathname, token, jwtVerify, now) == RedirectToLogin(true)
  {
    MatchedIsPrivate(pathname);
  }
}
