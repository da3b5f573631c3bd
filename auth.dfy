/**
 * Credential helpers of lib/auth.ts.
 *
 * bcrypt and jose are outside the model: `hash`/`compare` stand for bcrypt.hash/bcrypt.compare and
 * `sign`/`jwtVerify` for SignJWT(...).sign(secret) and jwtVerify(token, secret).  They are passed in as
 * plain functions; any property that needs them to behave (a signed token verifies, a password matches
 * its own hash) takes that behaviour as an explicit `requires`.
 */
module Auth {
  import opened Common
  import opened Tables

  /** The user as the rest of the application sees it: never the password hash. */
  datatype AuthUser = AuthUser(id: int, email: string, name: Option<string>)

  /** bcrypt cost factor used by hashPassword. */
  const BCRYPT_COST: nat := 12

  /** Protected-header algorithm of every issued token. */
  const TOKEN_ALG := "HS256"

  /** "7d" as seconds: the token's lifetime, also the auth-token cookie's maxAge. */
  const TOKEN_LIFETIME: nat := 7 * 24 * 60 * 60

  /**
   * What SignJWT is asked to sign: the claims, the header algorithm, the signing instant from which the
   * expiry is computed, and the expiry (seconds).  generateToken sets no `iat` claim, so `issuedAt` is not
   * part of the token's payload.
   */
  datatype SignRequest = SignRequest(claims: AuthUser, alg: string, issuedAt: nat, expiresAt: nat)

  /** A verified JWT payload: the claims plus the registered expiry claim jose adds and checks. */
  datatype JwtPayload = JwtPayload(id: int, email: string, name: Option<string>, exp: nat)

  /** hashPassword: bcrypt at the fixed cost. */
  function HashPassword(hash: (string, nat) -> string, password: string): (r: string)
    ensures r == hash(password, 12)
  {
    hash(password, BCRYPT_COST)
  }

  /** The request generateToken hands to the signer at instant `now`. */
  function TokenRequest(user: AuthUser, now: nat): (r: SignRequest)
    ensures r.claims.id == user.id && r.claims.email == user.email && r.claims.name == user.name
    ensures r.alg == "HS256"
    ensures r.issuedAt == now && r.expiresAt == now + 604800
  {
    SignRequest(user, TOKEN_ALG, now, now + TOKEN_LIFETIME)
  }

  /** generateToken: signs exactly id, email and name, HS256, expiring seven days after `now`. */
  function GenerateToken(sign: SignRequest -> string, user: AuthUser, now: nat): (r: string)
    ensures r == sign(SignRequest(user, "HS256", now, now + 604800))
  {
    sign(TokenRequest(user, now))
  }

  /** verifyToken: total; a failed verification (bad signature, expired, malformed) is None, never an exception. */
  function VerifyToken(jwtVerify: (string, nat) -> Option<JwtPayload>, token: string, now: nat): (r: Option<AuthUser>)
    ensures r.None? <==> jwtVerify(token, now).None?
    ensures r.Some? ==>
      var p := jwtVerify(token, now).value;
      r.value.id == p.id && r.value.email == p.email && r.value.name == p.name
  {
    match jwtVerify(token, now)
    case None => None
    case Some(p) => Some(AuthUser(p.id, p.email, p.name))
  }

  /**
   * The behaviour of jose that the round trip relies on: a signed token is a non-empty compact JWT, and before
   * its expiry it verifies to its claims and that expiry.  It is a statement about the library, not about this code.
   */
  ghost predicate SignsFaithfully(sign: SignRequest -> string, jwtVerify: (string, nat) -> Option<JwtPayload>) {
    forall req: SignRequest, t: nat | req.alg == TOKEN_ALG && t < req.expiresAt ::
      && sign(req) != ""
      && jwtVerify(sign(req), t) == Some(JwtPayload(req.claims.id, req.claims.email, req.claims.name, req.expiresAt))
  }

  /** A token issued at `now` is accepted, with the same id, email and name, throughout the following seven days. */
  lemma TokenRoundTrip(sign: SignRequest -> string, jwtVerify: (string, nat) -> Option<JwtPayload>,
                       user: AuthUser, now: nat, later: nat)
    requires SignsFaithfully(sign, jwtVerify)
    requires now <= later < now + TOKEN_LIFETIME
    ensures VerifyToken(jwtVerify, GenerateToken(sign, user, now), later) == Some(user)
  {
    var req := TokenRequest(user, now);
    assert jwtVerify(sign(req), later) == Some(JwtPayload(user.id, user.email, user.name, req.expiresAt));
  }

  /** authenticateUser: lookup by email, then bcrypt.compare against the stored hash, then the row without its hash. */
  function AuthenticateUser(users: seq<UserRow>, compare: (string, string) -> bool, email: string, password: string)
    : (r: Option<AuthUser>)
    ensures r.None? <==>
      UserByEmail(users, email).None? || !compare(password, UserByEmail(users, email).value.passwordHash)
    ensures r.Some? ==> exists i | 0 <= i < |users| ::
      && users[i].email == email && compare(password, users[i].passwordHash)
      && r.value == AuthUser(users[i].id, users[i].email, users[i].name)
  {
    match UserByEmail(users, email)
    case None => None
    case Some(u) =>
      if !compare(password, u.passwordHash) then None
      else Some(AuthUser(u.id, u.email, u.name))
  }

  /**
   * Signing up and then logging in with the same password succeeds and yields the new account, provided
   * bcrypt.compare accepts a password against its own hash.
   */
  lemma LoginAfterSignup(users: seq<UserRow>, hash: (string, nat) -> string, compare: (string, string) -> bool,
                         row: UserRow, password: string)
    requires UserByEmail(users, row.email).None?
    requires row.passwordHash == HashPassword(hash, password)
    requires compare(password, HashPassword(hash, password))
    ensures AuthenticateUser(users + [row], compare, row.email, password) == Some(AuthUser(row.id, row.email, row.name))
  {
    UserByEmailAfterInsert(users, row);
  }
}
