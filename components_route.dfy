/**
 * POST /api/protected/components (app/api/protected/components/route.ts): cookie, token, body, ownership, then
 * one saveComponentVersion.  A body that is not JSON makes request.json() throw, which the catch turns into 500.
 */
module ComponentsRoute {
  import opened Common
  import opened Tables
  import opened Auth
  import opened Http
  import opened Store

  /** The destructured JSON body; a missing field is undefined and reaches the store as NULL. */
  datatype SaveRequest = SaveRequest(sessionId: Option<int>, jsxCode: Option<string>, cssCode: Option<string>)

  /**
   * The handler.  `body` is None when the request body is not JSON.  Every refusal leaves the store as it was;
   * success stores exactly one version, with the request's code, and returns it.
   */
  method Post(db: Db, token: Option<string>, body: Option<SaveRequest>,
              jwtVerify: (string, nat) -> Option<JwtPayload>, now: nat) returns (resp: Response)
    requires db.Valid()
    modifies db
    ensures db.Valid()
    ensures var admitted := Admit(old(db.sessions), token, jwtVerify, now, body.Some?, SessionIdOf(body));
      && (admitted.Stop? ==> resp == admitted.response && unchanged(db))
      && (admitted.Pass? ==>
        var sid := admitted.value;
        && resp.status == 200 && resp.body.Component? && resp.setCookie.None?
        && resp.body.component == VersionRow(old(db.nextVersionId), sid, body.value.jsxCode, body.value.cssCode,
                                             NextVersion(old(db.versions), sid), old(db.clock))
        && db.versions == old(db.versions) + [resp.body.component]
        && db.sessions == Touch(old(db.sessions), sid, old(db.clock) + 1)
        && db.users == old(db.users) && db.messages == old(db.messages))
  {
    var admitted := Admit(db.sessions, token, jwtVerify, now, body.Some?, SessionIdOf(body));
    if admitted.Stop? {
      return admitted.response;
    }
    var saved := db.SaveComponentVersion(admitted.value, body.value.jsxCode, body.value.cssCode);
    resp := Json(200, Component(saved.value), None);
  }

  /** The body's sessionId, when the body was JSON at all. */
  function SessionIdOf(body: Option<SaveRequest>): Option<int> {
    if body.None? then None else body.value.sessionId
  }
}
