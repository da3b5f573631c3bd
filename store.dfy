/**
 * The `db` object of lib/db.ts as an in-memory store: one sequence per table, a logical
 * clock in place of CURRENT_TIMESTAMP (every INSERT and UPDATE reads a fresh tick; SELECTs
 * do not tick), and a counter per table in place of its SERIAL id.  The mutating operations run their INSERT and UPDATE
 * statements in the same order as the source; the queries are the functions of Tables read
 * against the current rows.
 */
module Store {
  import opened Common
  import opened Tables

  const UNTITLED_SESSION := "Untitled Session"

  /** The foreign-key check on sessions.user_id. */
  predicate HasUser(users: seq<UserRow>, uid: int) {
    exists k | 0 <= k < |users| :: users[k].id == uid
  }

  /** The foreign-key check on chat_messages.session_id and component_versions.session_id. */
  predicate HasSession(sessions: seq<SessionRow>, sid: int) {
    exists k | 0 <= k < |sessions| :: sessions[k].id == sid
  }

  // What the schema and the clock guarantee about the stored rows: UNIQUE(users.email), the
  // SERIAL session ids (increasing, below the counter), every session's updated_at and every
  // message's created_at older than the clock, and the per-session version numbers that
  // saveComponentVersion hands out.

  ghost predicate SessionsOk(sessions: seq<SessionRow>, nextId: int, clock: nat) {
    && (forall i, j | 0 <= i < j < |sessions| :: sessions[i].id < sessions[j].id)
    && (forall i | 0 <= i < |sessions| :: sessions[i].id < nextId && sessions[i].updatedAt < clock)
  }

  ghost predicate MessagesOk(messages: seq<MessageRow>, clock: nat) {
    && Chronological(messages)
    && (forall i | 0 <= i < |messages| :: messages[i].createdAt < clock)
  }

  ghost predicate StoreOk(users: seq<UserRow>, sessions: seq<SessionRow>, messages: seq<MessageRow>, versions: seq<VersionRow>,
                          nextSessionId: int, clock: nat) {
    && EmailsUnique(users)
    && SessionsOk(sessions, nextSessionId, clock)
    && MessagesOk(messages, clock)
    && Numbered(versions)
  }

  /** Bumping a session keeps every session id and moves no updated_at past the new tick. */
  lemma SessionsOkAfterTouch(sessions: seq<SessionRow>, nextId: int, clock: nat, sid: int, t: nat)
    requires SessionsOk(sessions, nextId, clock) && clock <= t
    ensures SessionsOk(Touch(sessions, sid, t), nextId, t + 1)
  {
  }

  /** updateSessionTitle keeps every session id and stamps no row later than its tick. */
  lemma SessionsOkAfterRetitle(sessions: seq<SessionRow>, nextId: int, clock: nat, sid: int, title: string)
    requires SessionsOk(sessions, nextId, clock)
    ensures SessionsOk(Retitle(sessions, sid, title, clock), nextId, clock + 1)
  {
  }

  lemma MessagesOkLater(messages: seq<MessageRow>, clock: nat, later: nat)
    requires MessagesOk(messages, clock) && clock <= later
    ensures MessagesOk(messages, later)
  {
  }

  lemma SessionsOkLater(sessions: seq<SessionRow>, nextId: int, clock: nat, later: nat)
    requires SessionsOk(sessions, nextId, clock) && clock <= later
    ensures SessionsOk(sessions, nextId, later)
  {
  }

  /** createUser keeps the store consistent: the new email was not taken. */
  lemma CreateUserOk(users: seq<UserRow>, sessions: seq<SessionRow>, messages: seq<MessageRow>, versions: seq<VersionRow>,
                     ns: int, clock: nat, row: UserRow)
    requires StoreOk(users, sessions, messages, versions, ns, clock)
    requires UserByEmail(users, row.email).None?
    ensures StoreOk(users + [row], sessions, messages, versions, ns, clock + 1)
  {
    var after := users + [row];
    assert forall i | 0 <= i < |users| :: after[i] == users[i];
    SessionsOkLater(sessions, ns, clock, clock + 1);
    MessagesOkLater(messages, clock, clock + 1);
  }

  /** createSession keeps the store consistent: the new id is above every stored one. */
  lemma CreateSessionOk(users: seq<UserRow>, sessions: seq<SessionRow>, messages: seq<MessageRow>, versions: seq<VersionRow>,
                        ns: int, clock: nat, row: SessionRow)
    requires StoreOk(users, sessions, messages, versions, ns, clock)
    requires row.id == ns && row.updatedAt == clock
    ensures StoreOk(users, sessions + [row], messages, versions, ns + 1, clock + 1)
  {
    var after := sessions + [row];
    assert forall i | 0 <= i < |sessions| :: after[i] == sessions[i];
    MessagesOkLater(messages, clock, clock + 1);
  }

  /** updateSessionTitle keeps the store consistent. */
  lemma RetitleOk(users: seq<UserRow>, sessions: seq<SessionRow>, messages: seq<MessageRow>, versions: seq<VersionRow>,
                  ns: int, clock: nat, sid: int, title: string)
    requires StoreOk(users, sessions, messages, versions, ns, clock)
    ensures StoreOk(users, Retitle(sessions, sid, title, clock), messages, versions, ns, clock + 1)
  {
    SessionsOkAfterRetitle(sessions, ns, clock, sid, title);
    MessagesOkLater(messages, clock, clock + 1);
  }

  /** addChatMessage (the INSERT at `clock`, the bump at `clock + 1`) keeps the store consistent. */
  lemma AddMessageOk(users: seq<UserRow>, sessions: seq<SessionRow>, messages: seq<MessageRow>, versions: seq<VersionRow>,
                     ns: int, clock: nat, sid: int, m: MessageRow)
    requires StoreOk(users, sessions, messages, versions, ns, clock)
    requires m.createdAt == clock
    ensures StoreOk(users, Touch(sessions, sid, clock + 1), messages + [m], versions, ns, clock + 2)
  {
    SessionsOkAfterTouch(sessions, ns, clock, sid, clock + 1);
    var after := messages + [m];
    assert forall i | 0 <= i < |messages| :: after[i] == messages[i];
  }

  /** saveComponentVersion (the INSERT at `clock`, the bump at `clock + 1`) keeps the store consistent. */
  lemma SaveVersionOk(users: seq<UserRow>, sessions: seq<SessionRow>, messages: seq<MessageRow>, versions: seq<VersionRow>,
                      ns: int, clock: nat, sid: int, v: VersionRow)
    requires StoreOk(users, sessions, messages, versions, ns, clock)
    requires v.version == NextVersion(versions, v.sessionId)
    ensures StoreOk(users, Touch(sessions, sid, clock + 1), messages, versions + [v], ns, clock + 2)
  {
    SessionsOkAfterTouch(sessions, ns, clock, sid, clock + 1);
    MessagesOkLater(messages, clock, clock + 2);
    NumberedAfterSave(versions, v);
  }

  class Db {
    var users: seq<UserRow>
    var sessions: seq<SessionRow>
    var messages: seq<MessageRow>
    var versions: seq<VersionRow>
    /** The tick the next statement reads as CURRENT_TIMESTAMP. */
    var clock: nat
    var nextUserId: int
    var nextSessionId: int
    var nextMessageId: int
    var nextVersionId: int

    ghost predicate Valid()
      reads this
    {
      StoreOk(users, sessions, messages, versions, nextSessionId, clock)
    }

    constructor ()
      ensures Valid()
      ensures users == [] && sessions == [] && messages == [] && versions == []
    {
      users, sessions, messages, versions := [], [], [], [];
      clock, nextUserId, nextSessionId, nextMessageId, nextVersionId := 0, 1, 1, 1, 1;
    }

    // -------------------------------------------------------------------------------------
    // users

    /** INSERT INTO users … RETURNING id, email, name, created_at; a duplicate email violates UNIQUE and the driver throws. */
    method CreateUser(email: string, passwordHash: string, name: Option<string>) returns (r: Option<UserInfo>)
      requires Valid()
      modifies this
      ensures Valid()
      ensures r.None? <==> old(UserByEmail(users, email)).Some?
      ensures r.None? ==> unchanged(this)
      ensures r.Some? ==>
        && r.value == UserInfo(old(nextUserId), email, name, old(clock))
        && users == old(users) + [UserRow(r.value.id, email, passwordHash, name, r.value.createdAt)]
        && sessions == old(sessions) && messages == old(messages) && versions == old(versions)
        && clock == old(clock) + 1
    {
      if UserByEmail(users, email).Some? {
        return None;
      }
      var row := UserRow(nextUserId, email, passwordHash, name, clock);
      CreateUserOk(users, sessions, messages, versions, nextSessionId, clock, row);
      users, nextUserId, clock := users + [row], nextUserId + 1, clock + 1;
      r := Some(Info(row));
    }

    /** getUserByEmail: the row (hash included) with that email; on a valid store it is the only one. */
    function GetUserByEmail(email: string): (r: Option<UserRow>)
      requires Valid()
      reads this
      ensures r.None? <==> forall i | 0 <= i < |users| :: users[i].email != email
      ensures r.Some? ==> forall i | 0 <= i < |users| :: users[i].email == email <==> users[i] == r.value
    {
      UserByEmail(users, email)
    }

    /** getUserById: the row with that id, without its hash. */
    function GetUserById(id: int): (r: Option<UserInfo>)
      requires Valid()
      reads this
      ensures r.None? <==> forall i | 0 <= i < |users| :: users[i].id != id
      ensures r.Some? ==> r.value.id == id && exists u | u in users :: u.id == id && r.value == Info(u)
    {
      UserById(users, id)
    }

    // -------------------------------------------------------------------------------------
    // sessions

    /** INSERT INTO sessions (user_id, title); the title defaults to "Untitled Session"; an unknown owner violates the foreign key. */
    method CreateSession(userId: int, title: Option<string>) returns (r: Option<SessionRow>)
      requires Valid()
      modifies this
      ensures Valid()
      ensures r.Some? <==> old(HasUser(users, userId))
      ensures r.None? ==> unchanged(this)
      ensures r.Some? ==>
        && r.value.userId == userId
        && r.value.title == (if title.None? then UNTITLED_SESSION else title.value)
        && r.value.id == old(nextSessionId)
        && r.value.createdAt == r.value.updatedAt == old(clock)
        && sessions == old(sessions) + [r.value]
        && users == old(users) && messages == old(messages) && versions == old(versions)
        && clock == old(clock) + 1
    {
      if !HasUser(users, userId) {
        return None;
      }
      var row := SessionRow(nextSessionId, userId, title.GetOr(UNTITLED_SESSION), clock, clock);
      CreateSessionOk(users, sessions, messages, versions, nextSessionId, clock, row);
      sessions, nextSessionId, clock := sessions + [row], nextSessionId + 1, clock + 1;
      r := Some(row);
    }

    /** getUserSessions: exactly the user's sessions, most recently updated first. */
    function GetUserSessions(userId: int): (r: seq<SessionRow>)
      reads this
      ensures forall x :: multiset(r)[x] == if x.userId == userId then multiset(sessions)[x] else 0
      ensures forall i, j | 0 <= i < j < |r| :: r[i].updatedAt >= r[j].updatedAt
    {
      UserSessions(sessions, userId)
    }

    /** getSession: the session only when both its id and its owner match; every other user gets nothing. */
    function GetSession(sessionId: int, userId: int): (r: Option<SessionRow>)
      requires Valid()
      reads this
      ensures r.Some? <==> exists i | 0 <= i < |sessions| :: sessions[i].id == sessionId && sessions[i].userId == userId
      ensures r.Some? ==> r.value in sessions && r.value.id == sessionId && r.value.userId == userId
      ensures r.Some? ==> forall other | other != userId :: SessionFor(sessions, sessionId, other).None?
    {
      var r := SessionFor(sessions, sessionId, userId);
      if r.Some? then
        var k :| 0 <= k < |sessions| && sessions[k] == r.value;
        assert SessionIdsUnique(sessions);
        forall other | other != userId ensures SessionFor(sessions, sessionId, other).None? {
          OnlyOwnerSeesSession(sessions, k, other);
        }
        r
      else r
    }

    /** UPDATE sessions SET title, updated_at WHERE id: no owner check, nothing else changes. */
    method UpdateSessionTitle(sessionId: int, title: string)
      requires Valid()
      modifies this
      ensures Valid()
      ensures |sessions| == |old(sessions)|
      ensures forall i | 0 <= i < |sessions| ::
        sessions[i] == if old(sessions[i]).id == sessionId
                       then old(sessions[i]).(title := title, updatedAt := old(clock))
                       else old(sessions[i])
      ensures users == old(users) && messages == old(messages) && versions == old(versions)
      ensures clock == old(clock) + 1
    {
      RetitleOk(users, sessions, messages, versions, nextSessionId, clock, sessionId, title);
      sessions, clock := Retitle(sessions, sessionId, title, clock), clock + 1;
    }

    // -------------------------------------------------------------------------------------
    // chat_messages

    /**
     * INSERT INTO chat_messages, then UPDATE sessions SET updated_at: the message is stored at
     * one tick and its session bumped at the next.  An unknown session violates the foreign key.
     */
    method AddChatMessage(sessionId: int, role: Role, content: string) returns (r: Option<MessageRow>)
      requires Valid()
      modifies this
      ensures Valid()
      ensures r.Some? <==> old(HasSession(sessions, sessionId))
      ensures r.None? ==> unchanged(this)
      ensures r.Some? ==>
        && r.value == MessageRow(old(nextMessageId), sessionId, role, content, old(clock))
        && messages == old(messages) + [r.value]
        && sessions == Touch(old(sessions), sessionId, old(clock) + 1)
        && users == old(users) && versions == old(versions)
        && clock == old(clock) + 2
    {
      if !HasSession(sessions, sessionId) {
        return None;
      }
      var row := MessageRow(nextMessageId, sessionId, role, content, clock);
      AddMessageOk(users, sessions, messages, versions, nextSessionId, clock, sessionId, row);
      messages, nextMessageId, sessions, clock := messages + [row], nextMessageId + 1, Touch(sessions, sessionId, clock + 1), clock + 2;
      r := Some(row);
    }

    /** getChatMessages: the session's messages, strictly ascending by creation time. */
    function GetChatMessages(sessionId: int): (r: seq<MessageRow>)
      reads this
      requires Valid()
      ensures forall x :: multiset(r)[x] == if x.sessionId == sessionId then multiset(messages)[x] else 0
      ensures forall i, j | 0 <= i < j < |r| :: r[i].createdAt < r[j].createdAt
    {
      HistoryAscending(messages, sessionId);
      MessagesOfContents(messages, sessionId);
      MessagesOf(messages, sessionId)
    }

    // -------------------------------------------------------------------------------------
    // component_versions

    /**
     * SELECT COALESCE(MAX(version), 0) + 1, then INSERT the row with that number, then UPDATE
     * sessions SET updated_at.  An unknown session violates the foreign key at the INSERT.
     */
    method SaveComponentVersion(sessionId: int, jsxCode: Option<string>, cssCode: Option<string>) returns (r: Option<VersionRow>)
      requires Valid()
      modifies this
      ensures Valid()
      ensures r.Some? <==> old(HasSession(sessions, sessionId))
      ensures r.None? ==> unchanged(this)
      ensures r.Some? ==>
        && r.value == VersionRow(old(nextVersionId), sessionId, jsxCode, cssCode, NextVersion(old(versions), sessionId), old(clock))
        && versions == AppendVersion(old(versions), sessionId, SaveArgs(old(nextVersionId), jsxCode, cssCode, old(clock)))
        && sessions == Touch(old(sessions), sessionId, old(clock) + 1)
        && users == old(users) && messages == old(messages)
        && clock == old(clock) + 2
    {
      var next := NextVersion(versions, sessionId);
      if !HasSession(sessions, sessionId) {
        return None;
      }
      var row := VersionRow(nextVersionId, sessionId, jsxCode, cssCode, next, clock);
      SaveVersionOk(users, sessions, messages, versions, nextSessionId, clock, sessionId, row);
      versions, nextVersionId, sessions, clock := versions + [row], nextVersionId + 1, Touch(sessions, sessionId, clock + 1), clock + 2;
      r := Some(row);
    }

    /** getLatestComponentVersion: the session's row with the largest number, or null when it has none. */
    function GetLatestComponentVersion(sessionId: int): (r: Option<VersionRow>)
      reads this
      requires Valid()
      ensures r.None? <==> forall i | 0 <= i < |versions| :: versions[i].sessionId != sessionId
      ensures r.Some? ==> r.value in versions && r.value.sessionId == sessionId
      ensures r.Some? ==> forall i | 0 <= i < |versions| && versions[i].sessionId == sessionId ::
        versions[i].version <= r.value.version
      ensures r.Some? ==> GetComponentVersions(sessionId)[0] == r.value
    {
      LatestIsMax(versions, sessionId);
      LatestVersion(versions, sessionId)
    }

    /** getComponentVersions: exactly the session's rows, in strictly descending version order. */
    function GetComponentVersions(sessionId: int): (r: seq<VersionRow>)
      reads this
      requires Valid()
      ensures forall x :: multiset(r)[x] == if x.sessionId == sessionId then multiset(versions)[x] else 0
      ensures forall i, j | 0 <= i < j < |r| :: r[i].version > r[j].version
    {
      NewestVersionsFirstDescending(versions, sessionId);
      NewestVersionsFirst(versions, sessionId)
    }
  }

  /** Appending a row with the next number of its session keeps every session's numbers increasing in table order. */
  lemma NumberedAfterSave(versions: seq<VersionRow>, row: VersionRow)
    requires Numbered(versions)
    requires row.version == NextVersion(versions, row.sessionId)
    ensures Numbered(versions + [row])
  {
    var after := versions + [row];
    forall i, j | 0 <= i < j < |after| && after[i].sessionId == after[j].sessionId
      ensures after[i].version < after[j].version
    {
      if j == |versions| {
        assert after[i] == versions[i];
      }
    }
  }

  /** A row appended with the next number of its session becomes that session's latest version. */
  lemma NewestIsSaved(versions: seq<VersionRow>, row: VersionRow)
    requires Numbered(versions)
    requires row.version == NextVersion(versions, row.sessionId)
    ensures LatestVersion(versions + [row], row.sessionId) == Some(row)
  {
    VersionsOfAppend(versions, row);
  }

  /** A session bumped to a tick newer than every session's updated_at heads its owner's list. */
  lemma HeadsOwnerList(sessions: seq<SessionRow>, sid: int, t: nat)
    requires forall k | 0 <= k < |sessions| :: sessions[k].updatedAt < t
    ensures forall uid | SessionFor(sessions, sid, uid).Some? ::
      |UserSessions(Touch(sessions, sid, t), uid)| > 0 && UserSessions(Touch(sessions, sid, t), uid)[0].id == sid
  {
    forall uid | SessionFor(sessions, sid, uid).Some?
      ensures |UserSessions(Touch(sessions, sid, t), uid)| > 0 && UserSessions(Touch(sessions, sid, t), uid)[0].id == sid
    {
      TouchedSessionFirst(sessions, sid, uid, t);
    }
  }
}
