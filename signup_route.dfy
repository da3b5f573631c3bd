/**
 * POST /api/auth/signup (app/api/auth/signup/route.ts): validate, refuse a taken email, create the user with a
 * bcrypt hash, and answer with the account and an auth-token cookie.  A body that is not JSON makes
 * request.json() throw, which the catch turns into 500.
 */
module SignupRoute {
  import opened Common
  import opened Tables
  import opened Auth
  import opened Http
  import opened Store

  /** The destructured JSON body; absent fields are None. */
  datatype SignupRequest = SignupRequest(name: Option<string>, email: Option<string>, password: Option<string>)

  const MISSING_FIELDS := Json(400, Error("Email and password are required"), None)
  const EMAIL_TAKEN := Json(409, Error("User already exists with this email"), None)
  const ACCOUNT_CREATED := "Account created successfully"

  /** The Set-Cookie of a successful signup: httpOnly, secure only in production, SameSite=Lax, seven days. */
  function SessionCookie(token: string, production: bool): (c: Cookie)
    ensures c.name == "auth-token" && c.value == token
    ensures c.httpOnly && c.secure == production && c.sameSite == Lax
    ensures c.maxAge == TOKEN_LIFETIME == 604800
  {
    Cookie(AUTH_COOKIE, token, true, production, Lax, TOKEN_LIFETIME)
  }

  /**
   * The handler.  `hash` and `sign` stand for bcrypt and jose, `now` for the signing instant and `production`
   * for NODE_ENV === "production".  Every refusal leaves the store as it was; success adds exactly one user,
   * holding the hash of the password, and returns that account (without the hash) and its token cookie.
   */
  method Post(db: Db, body: Option<SignupRequest>, hash: (string, nat) -> string, sign: SignRequest -> string,
              now: nat, production: bool) returns (resp: Response)
    requires db.Valid()
    modifies db
    ensures db.Valid()
    ensures body.None? ==> resp == INTERNAL_ERROR && unchanged(db)
    ensures body.Some? && (Falsy(body.value.email) || Falsy(body.value.password)) ==>
      resp == MISSING_FIELDS && unchanged(db)
    ensures body.Some? && !Falsy(body.value.email) && !Falsy(body.value.password) &&
            old(UserByEmail(db.users, body.value.email.value)).Some? ==>
      resp == EMAIL_TAKEN && unchanged(db)
    ensures resp.status == 200 <==>
      body.Some? && !Falsy(body.value.email) && !Falsy(body.value.password) &&
      old(UserByEmail(db.users, body.value.email.value)).None?
    ensures resp.status == 200 ==>
      var req := body.value;
      var account := AuthUser(old(db.nextUserId), req.email.value, req.name);
      && db.users == old(db.users) + [UserRow(account.id, account.email, HashPassword(hash, req.password.value),
                                              req.name, old(db.clock))]
      && db.sessions == old(db.sessions) && db.messages == old(db.messages) && db.versions == old(db.versions)
      && resp.body == Account(ACCOUNT_CREATED, account)
      && resp.setCookie == Some(SessionCookie(GenerateToken(sign, account, now), production))
  {
    if body.None? {
      return INTERNAL_ERROR;
    }
    var req := body.value;
    if Falsy(req.email) || Falsy(req.password) {
      return MISSING_FIELDS;
    }
    var email, password := req.email.value, req.password.value;
    var existing := db.GetUserByEmail(email);
    if existing.Some? {
      return EMAIL_TAKEN;
    }
    var passwordHash := HashPassword(hash, password);
    var user := db.CreateUser(email, passwordHash, req.name);
    var token := GenerateToken(sign, AuthUser(user.value.id, user.value.email, req.name), now);
    resp := Json(200, Account(ACCOUNT_CREATED, AuthUser(user.value.id, user.value.email, user.value.name)),
                 Some(SessionCookie(token, production)));
  }
}
