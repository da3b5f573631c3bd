/**
 * The four tables behind lib/db.ts (users, sessions, chat_messages, component_versions) as
 * sequences of rows in insertion order, and the meaning of every SQL query the store runs,
 * as pure functions over those sequences.  Timestamps are ticks of a logical clock that
 * stands in for CURRENT_TIMESTAMP.
 */
module Tables {
  import opened Common

  datatype Role = UserRole | AssistantRole

  /** A row of `users`, password hash included (what getUserByEmail selects). */
  datatype UserRow = UserRow(id: int, email: string, passwordHash: string, name: Option<string>, createdAt: nat)

  /** The `User` shape: a users row without its password hash (what createUser and getUserById return). */
  datatype UserInfo = UserInfo(id: int, email: string, name: Option<string>, createdAt: nat)

  datatype SessionRow = SessionRow(id: int, userId: int, title: string, createdAt: nat, updatedAt: nat)

  datatype MessageRow = MessageRow(id: int, sessionId: int, role: Role, content: string, createdAt: nat)

  datatype VersionRow = VersionRow(id: int, sessionId: int, jsxCode: Option<string>, cssCode: Option<string>,
                                   version: int, createdAt: nat)

  function Info(u: UserRow): UserInfo {
    UserInfo(u.id, u.email, u.name, u.createdAt)
  }

  // ---------------------------------------------------------------------------------------
  // users

  /** SELECT … FROM users WHERE email = $email, first row or nothing. */
  function UserByEmail(users: seq<UserRow>, email: string): (r: Option<UserRow>)
    ensures r.None? <==> forall i | 0 <= i < |users| :: users[i].email != email
    ensures r.Some? ==> r.value in users && r.value.email == email
  {
    if |users| == 0 then None
    else if users[0].email == email then Some(users[0])
    else UserByEmail(users[1..], email)
  }

  /** SELECT id, email, name, created_at FROM users WHERE id = $id, first row or null. */
  function UserById(users: seq<UserRow>, id: int): (r: Option<UserInfo>)
    ensures r.None? <==> forall i | 0 <= i < |users| :: users[i].id != id
    ensures r.Some? ==> exists i | 0 <= i < |users| :: users[i].id == id && r.value == Info(users[i])
  {
    if |users| == 0 then None
    else if users[0].id == id then Some(Info(users[0]))
    else
      var r := UserById(users[1..], id);
      assert r.Some? ==> exists i | 0 <= i < |users| - 1 :: users[1..][i].id == id && r.value == Info(users[1..][i]);
      r
  }

  ghost predicate EmailsUnique(users: seq<UserRow>) {
    forall i, j | 0 <= i < j < |users| :: users[i].email != users[j].email
  }

  /** Under the UNIQUE(email) constraint the lookup finds the one row with that email. */
  lemma {:induction false} UserByEmailFindsRow(users: seq<UserRow>, k: nat)
    requires EmailsUnique(users)
    requires k < |users|
    ensures UserByEmail(users, users[k].email) == Some(users[k])
  {
    if k > 0 {
      assert users[0].email != users[k].email;
      assert EmailsUnique(users[1..]) by {
        forall i, j | 0 <= i < j < |users| - 1 ensures users[1..][i].email != users[1..][j].email {
          assert users[1..][i] == users[i + 1] && users[1..][j] == users[j + 1];
        }
      }
      UserByEmailFindsRow(users[1..], k - 1);
    }
  }

  /** A row appended with an email no earlier row has is what the lookup then returns. */
  lemma {:induction false} UserByEmailAfterInsert(users: seq<UserRow>, row: UserRow)
    requires UserByEmail(users, row.email).None?
    ensures UserByEmail(users + [row], row.email) == Some(row)
  {
    if |users| > 0 {
      assert (users + [row])[1..] == users[1..] + [row];
      UserByEmailAfterInsert(users[1..], row);
    }
  }

  // ---------------------------------------------------------------------------------------
  // sessions

  /** SELECT … FROM sessions WHERE id = $sid AND user_id = $uid, first row or null. */
  function SessionFor(sessions: seq<SessionRow>, sid: int, uid: int): (r: Option<SessionRow>)
    ensures r.None? <==> forall i | 0 <= i < |sessions| :: !(sessions[i].id == sid && sessions[i].userId == uid)
    ensures r.Some? ==> r.value in sessions && r.value.id == sid && r.value.userId == uid
  {
    if |sessions| == 0 then None
    else if sessions[0].id == sid && sessions[0].userId == uid then Some(sessions[0])
    else SessionFor(sessions[1..], sid, uid)
  }

  ghost predicate SessionIdsUnique(sessions: seq<SessionRow>) {
    forall i, j | 0 <= i < j < |sessions| :: sessions[i].id != sessions[j].id
  }

  /** Ownership is the lookup key: a session is invisible to every user but its owner. */
  lemma OnlyOwnerSeesSession(sessions: seq<SessionRow>, k: nat, other: int)
    requires SessionIdsUnique(sessions)
    requires k < |sessions| && other != sessions[k].userId
    ensures SessionFor(sessions, sessions[k].id, other).None?
    ensures SessionFor(sessions, sessions[k].id, sessions[k].userId) == Some(sessions[k])
  {
    var s := SessionFor(sessions, sessions[k].id, sessions[k].userId);
    assert s.Some?;
    var j :| 0 <= j < |sessions| && sessions[j] == s.value;
    assert j == k by {
      assert sessions[j].id == sessions[k].id;
    }
  }

  /** UPDATE sessions SET updated_at = $t WHERE id = $sid. */
  function Touch(sessions: seq<SessionRow>, sid: int, t: nat): (r: seq<SessionRow>)
    ensures |r| == |sessions|
    ensures forall i | 0 <= i < |r| ::
      && r[i].id == sessions[i].id && r[i].userId == sessions[i].userId
      && r[i].title == sessions[i].title && r[i].createdAt == sessions[i].createdAt
    ensures forall i | 0 <= i < |r| :: r[i].updatedAt == if sessions[i].id == sid then t else sessions[i].updatedAt
  {
    seq(|sessions|, i requires 0 <= i < |sessions| =>
      if sessions[i].id == sid then sessions[i].(updatedAt := t) else sessions[i])
  }

  /** UPDATE sessions SET title = $title, updated_at = $t WHERE id = $sid. */
  function Retitle(sessions: seq<SessionRow>, sid: int, title: string, t: nat): (r: seq<SessionRow>)
    ensures |r| == |sessions|
    ensures forall i | 0 <= i < |r| ::
      && r[i].id == sessions[i].id && r[i].userId == sessions[i].userId && r[i].createdAt == sessions[i].createdAt
    ensures forall i | 0 <= i < |r| ::
      && r[i].title == (if sessions[i].id == sid then title else sessions[i].title)
      && r[i].updatedAt == (if sessions[i].id == sid then t else sessions[i].updatedAt)
  {
    seq(|sessions|, i requires 0 <= i < |sessions| =>
      if sessions[i].id == sid then sessions[i].(title := title, updatedAt := t) else sessions[i])
  }

  /** WHERE user_id = $uid, in table order. */
  function OwnedBy(sessions: seq<SessionRow>, uid: int): (r: seq<SessionRow>)
    ensures forall x :: multiset(r)[x] == if x.userId == uid then multiset(sessions)[x] else 0
  {
    if |sessions| == 0 then []
    else
      var last := sessions[|sessions| - 1];
      assert sessions == sessions[..|sessions| - 1] + [last];
      OwnedBy(sessions[..|sessions| - 1], uid) + (if last.userId == uid then [last] else [])
  }

  ghost predicate NewestFirst(s: seq<SessionRow>) {
    forall i, j | 0 <= i < j < |s| :: s[i].updatedAt >= s[j].updatedAt
  }

  function InsertByRecency(x: SessionRow, s: seq<SessionRow>): (r: seq<SessionRow>)
    requires NewestFirst(s)
    ensures multiset(r) == multiset(s) + multiset{x}
    ensures NewestFirst(r)
    decreases |s|
  {
    if s == [] || x.updatedAt >= s[0].updatedAt then
      assert forall k | 0 <= k < |s| :: s[k].updatedAt <= x.updatedAt;
      NewestFirstCons(x, s);
      [x] + s
    else
      assert s == [s[0]] + s[1..];
      var rest := InsertByRecency(x, s[1..]);
      NoNewerThan(rest, s[1..], x, s[0].updatedAt);
      NewestFirstCons(s[0], rest);
      [s[0]] + rest
  }

  /** A row no older than any row of a newest-first list can go in front of it. */
  lemma NewestFirstCons(h: SessionRow, s: seq<SessionRow>)
    requires NewestFirst(s)
    requires forall k | 0 <= k < |s| :: s[k].updatedAt <= h.updatedAt
    ensures NewestFirst([h] + s)
  {
    var r := [h] + s;
    forall i, j | 0 <= i < j < |r| ensures r[i].updatedAt >= r[j].updatedAt {
      assert r[j] == s[j - 1];
      if i > 0 {
        assert r[i] == s[i - 1];
      }
    }
  }

  /** A sequence holding the rows of `s` plus `x` is no newer than a bound that all of them respect. */
  lemma NoNewerThan(r: seq<SessionRow>, s: seq<SessionRow>, x: SessionRow, bound: nat)
    requires multiset(r) == multiset(s) + multiset{x}
    requires x.updatedAt <= bound && forall k | 0 <= k < |s| :: s[k].updatedAt <= bound
    ensures forall k | 0 <= k < |r| :: r[k].updatedAt <= bound
  {
    forall k | 0 <= k < |r| ensures r[k].updatedAt <= bound {
      assert r[k] in multiset(r);
      if r[k] != x {
        assert r[k] in multiset(s);
        var p :| 0 <= p < |s| && s[p] == r[k];
      }
    }
  }

  /** ORDER BY updated_at DESC (rows with equal timestamps in some order). */
  function ByRecency(s: seq<SessionRow>): (r: seq<SessionRow>)
    ensures multiset(r) == multiset(s)
    ensures NewestFirst(r)
  {
    if s == [] then []
    else
      assert s == [s[0]] + s[1..];
      InsertByRecency(s[0], ByRecency(s[1..]))
  }

  /** getUserSessions: the caller's sessions, most recently updated first. */
  function UserSessions(sessions: seq<SessionRow>, uid: int): (r: seq<SessionRow>)
    ensures forall x :: multiset(r)[x] == if x.userId == uid then multiset(sessions)[x] else 0
    ensures NewestFirst(r)
  {
    ByRecency(OwnedBy(sessions, uid))
  }

  /** After a write bumps session `sid` to a tick newer than every session's updated_at, that session heads its owner's list. */
  lemma TouchedSessionFirst(sessions: seq<SessionRow>, sid: int, uid: int, t: nat)
    requires forall i | 0 <= i < |sessions| :: sessions[i].updatedAt < t
    requires SessionFor(sessions, sid, uid).Some?
    ensures var r := UserSessions(Touch(sessions, sid, t), uid); |r| > 0 && r[0].id == sid && r[0].updatedAt == t
  {
    var after := Touch(sessions, sid, t);
    var k :| 0 <= k < |sessions| && sessions[k].id == sid && sessions[k].userId == uid;
    assert after[k].updatedAt == t && after[k].userId == uid;
    var q := UserSessionsHead(after, uid, k);
    TouchOnlyBumps(sessions, sid, t, q);
  }

  /** The head of a user's session list is one of their rows, at least as recent as any of their rows. */
  lemma UserSessionsHead(sessions: seq<SessionRow>, uid: int, k: nat) returns (q: nat)
    requires k < |sessions| && sessions[k].userId == uid
    ensures var r := UserSessions(sessions, uid);
      && |r| > 0 && q < |sessions| && r[0] == sessions[q]
      && r[0].updatedAt >= sessions[k].updatedAt
  {
    var r := UserSessions(sessions, uid);
    var x := sessions[k];
    assert x in multiset(sessions);
    assert multiset(r)[x] == multiset(sessions)[x];
    assert x in r;
    var p :| 0 <= p < |r| && r[p] == x;
    var head := r[0];
    assert head in multiset(r);
    assert multiset(r)[head] == (if head.userId == uid then multiset(sessions)[head] else 0);
    assert head in sessions;
    q :| 0 <= q < |sessions| && sessions[q] == head;
  }

  /** The only rows of Touch(sessions, sid, t) at tick t or later are the rows of `sid`. */
  lemma TouchOnlyBumps(sessions: seq<SessionRow>, sid: int, t: nat, q: nat)
    requires forall i | 0 <= i < |sessions| :: sessions[i].updatedAt < t
    requires q < |sessions|
    ensures Touch(sessions, sid, t)[q].updatedAt >= t ==> Touch(sessions, sid, t)[q].id == sid
    ensures Touch(sessions, sid, t)[q].updatedAt <= t
  {
  }

  // ---------------------------------------------------------------------------------------
  // chat_messages

  /** SELECT … FROM chat_messages WHERE session_id = $sid, in table order. */
  function MessagesOf(messages: seq<MessageRow>, sid: int): (r: seq<MessageRow>)
    ensures |r| <= |messages|
    ensures forall k | 0 <= k < |r| :: r[k].sessionId == sid
  {
    if |messages| == 0 then []
    else
      var last := messages[|messages| - 1];
      assert messages == messages[..|messages| - 1] + [last];
      MessagesOf(messages[..|messages| - 1], sid) + (if last.sessionId == sid then [last] else [])
  }

  ghost predicate Chronological(messages: seq<MessageRow>) {
    forall i, j | 0 <= i < j < |messages| :: messages[i].createdAt < messages[j].createdAt
  }

  /** With creation ticks increasing in table order, the per-session history is ORDER BY created_at ASC. */
  lemma {:induction false} HistoryAscending(messages: seq<MessageRow>, sid: int)
    requires Chronological(messages)
    ensures Chronological(MessagesOf(messages, sid))
  {
    if |messages| > 0 {
      var init := messages[..|messages| - 1];
      var last := messages[|messages| - 1];
      assert Chronological(init);
      HistoryAscending(init, sid);
      var h := MessagesOf(init, sid);
      forall k | 0 <= k < |h| ensures h[k].createdAt < last.createdAt {
        var p := MessagesOfMember(init, sid, k);
        assert messages[p] == h[k];
      }
    }
  }

  /** Every message of a session's history is a row of the table. */
  lemma {:induction false} MessagesOfMember(messages: seq<MessageRow>, sid: int, k: nat) returns (p: nat)
    requires k < |MessagesOf(messages, sid)|
    ensures p < |messages| && messages[p] == MessagesOf(messages, sid)[k]
  {
    var init := messages[..|messages| - 1];
    if k < |MessagesOf(init, sid)| {
      p := MessagesOfMember(init, sid, k);
    } else {
      p := |messages| - 1;
    }
  }

  /** The history holds exactly the session's messages, each as often as the table does. */
  lemma {:induction false} MessagesOfContents(messages: seq<MessageRow>, sid: int)
    ensures forall x :: multiset(MessagesOf(messages, sid))[x] == if x.sessionId == sid then multiset(messages)[x] else 0
  {
    if |messages| > 0 {
      var init, last := messages[..|messages| - 1], messages[|messages| - 1];
      assert messages == init + [last];
      MessagesOfContents(init, sid);
    }
  }

  /** Appending a message adds it to its own session's history, once and last, and leaves every other history alone. */
  lemma AppendedMessageLast(messages: seq<MessageRow>, m: MessageRow, sid: int)
    requires forall i | 0 <= i < |messages| :: messages[i].createdAt < m.createdAt
    ensures MessagesOf(messages + [m], sid) == MessagesOf(messages, sid) + (if m.sessionId == sid then [m] else [])
    ensures m.sessionId == sid ==> multiset(MessagesOf(messages + [m], sid))[m] == 1
  {
    assert (messages + [m])[..|messages|] == messages;
    var h := MessagesOf(messages, sid);
    forall k | 0 <= k < |h| ensures h[k] != m {
      var p := MessagesOfMember(messages, sid, k);
    }
    assert m !in h;
  }

  // ---------------------------------------------------------------------------------------
  // component_versions

  /** WHERE session_id = $sid, in table order. */
  function VersionsOf(versions: seq<VersionRow>, sid: int): (r: seq<VersionRow>)
    ensures |r| <= |versions|
    ensures forall k | 0 <= k < |r| :: r[k].sessionId == sid
  {
    if |versions| == 0 then []
    else
      var last := versions[|versions| - 1];
      assert versions == versions[..|versions| - 1] + [last];
      VersionsOf(versions[..|versions| - 1], sid) + (if last.sessionId == sid then [last] else [])
  }

  /** SELECT MAX(version) … WHERE session_id = $sid: null when the session has no rows. */
  function MaxVersion(versions: seq<VersionRow>, sid: int): (r: Option<int>)
    ensures r.None? <==> forall i | 0 <= i < |versions| :: versions[i].sessionId != sid
    ensures r.Some? ==> forall i | 0 <= i < |versions| && versions[i].sessionId == sid :: versions[i].version <= r.value
    ensures r.Some? ==> exists i | 0 <= i < |versions| :: versions[i].sessionId == sid && versions[i].version == r.value
  {
    if |versions| == 0 then None
    else
      var init := versions[..|versions| - 1];
      var last := versions[|versions| - 1];
      var m := MaxVersion(init, sid);
      assert forall i | 0 <= i < |init| :: init[i] == versions[i];
      if last.sessionId == sid && (m.None? || last.version > m.value) then Some(last.version) else m
  }

  /** COALESCE(MAX(version), 0) + 1. */
  function NextVersion(versions: seq<VersionRow>, sid: int): (v: int)
    ensures forall i | 0 <= i < |versions| && versions[i].sessionId == sid :: versions[i].version < v
    ensures (forall i | 0 <= i < |versions| :: versions[i].sessionId != sid) ==> v == 1
    ensures (exists i | 0 <= i < |versions| :: versions[i].sessionId == sid) ==>
      exists i | 0 <= i < |versions| :: versions[i].sessionId == sid && versions[i].version == v - 1
  {
    MaxVersion(versions, sid).GetOr(0) + 1
  }

  /** The arguments of one saveComponentVersion call, with the row id and tick the store assigns. */
  datatype SaveArgs = SaveArgs(id: int, jsxCode: Option<string>, cssCode: Option<string>, at: nat)

  /** The INSERT of saveComponentVersion: one row for `sid`, numbered NextVersion. */
  function AppendVersion(versions: seq<VersionRow>, sid: int, a: SaveArgs): (r: seq<VersionRow>)
    ensures |r| == |versions| + 1 && r[..|versions|] == versions
    ensures var row := r[|versions|];
      && row.id == a.id && row.sessionId == sid && row.jsxCode == a.jsxCode && row.cssCode == a.cssCode
      && row.createdAt == a.at
      && (forall i | 0 <= i < |versions| && versions[i].sessionId == sid :: versions[i].version < row.version)
      && ((forall i | 0 <= i < |versions| :: versions[i].sessionId != sid) ==> row.version == 1)
  {
    versions + [VersionRow(a.id, sid, a.jsxCode, a.cssCode, NextVersion(versions, sid), a.at)]
  }

  /** Each save numbers its row one past the previous number of that session and leaves the other sessions' numbering alone. */
  lemma NextVersionAfterSave(versions: seq<VersionRow>, sid: int, a: SaveArgs, other: int)
    ensures NextVersion(AppendVersion(versions, sid, a), sid) == NextVersion(versions, sid) + 1
    ensures other != sid ==> NextVersion(AppendVersion(versions, sid, a), other) == NextVersion(versions, other)
  {
    var after := AppendVersion(versions, sid, a);
    assert after[..|versions|] == versions;
  }

  /** `saves` applied one after another to session `sid`. */
  function SaveEach(versions: seq<VersionRow>, sid: int, saves: seq<SaveArgs>): seq<VersionRow>
    decreases |saves|
  {
    if saves == [] then versions
    else AppendVersion(SaveEach(versions, sid, saves[..|saves| - 1]), sid, saves[|saves| - 1])
  }

  function VersionNumbers(rows: seq<VersionRow>): seq<int> {
    seq(|rows|, i requires 0 <= i < |rows| => rows[i].version)
  }

  /** The session's rows after one more row of that session is appended. */
  lemma VersionsOfAppend(versions: seq<VersionRow>, row: VersionRow)
    ensures VersionsOf(versions + [row], row.sessionId) == VersionsOf(versions, row.sessionId) + [row]
  {
    assert (versions + [row])[..|versions|] == versions;
  }

  lemma VersionNumbersAppend(rows: seq<VersionRow>, row: VersionRow)
    ensures VersionNumbers(rows + [row]) == VersionNumbers(rows) + [row.version]
  {
  }

  /** The listing holds exactly the session's rows, each as often as the table does. */
  lemma {:induction false} VersionsOfContents(versions: seq<VersionRow>, sid: int)
    ensures forall x :: multiset(VersionsOf(versions, sid))[x] == if x.sessionId == sid then multiset(versions)[x] else 0
  {
    if |versions| > 0 {
      var init, last := versions[..|versions| - 1], versions[|versions| - 1];
      assert versions == init + [last];
      VersionsOfContents(init, sid);
    }
  }

  /** The listing is empty exactly when the table holds no row of the session. */
  lemma {:induction false} VersionsOfEmpty(versions: seq<VersionRow>, sid: int)
    ensures VersionsOf(versions, sid) == [] <==> forall i | 0 <= i < |versions| :: versions[i].sessionId != sid
  {
    if |versions| > 0 {
      var init := versions[..|versions| - 1];
      VersionsOfEmpty(init, sid);
      assert forall i | 0 <= i < |init| :: init[i] == versions[i];
    }
  }

  /** A session with no rows gets version 1 next. */
  lemma FirstVersionIsOne(versions: seq<VersionRow>, sid: int)
    requires VersionsOf(versions, sid) == []
    ensures NextVersion(versions, sid) == 1
  {
    VersionsOfEmpty(versions, sid);
  }

  ghost predicate NumberedOneTo(numbers: seq<int>, n: nat) {
    |numbers| == n && forall i | 0 <= i < n :: numbers[i] == i + 1
  }

  /** One save extends the numbering 1..n-1 of a session to 1..n. */
  lemma SaveExtendsNumbering(before: seq<VersionRow>, sid: int, a: SaveArgs, n: nat)
    requires n >= 1
    requires NumberedOneTo(VersionNumbers(VersionsOf(before, sid)), n - 1)
    requires NextVersion(before, sid) == n
    ensures NumberedOneTo(VersionNumbers(VersionsOf(AppendVersion(before, sid, a), sid)), n)
    ensures NextVersion(AppendVersion(before, sid, a), sid) == n + 1
  {
    NextVersionAfterSave(before, sid, a, sid);
    var row := VersionRow(a.id, sid, a.jsxCode, a.cssCode, n, a.at);
    assert AppendVersion(before, sid, a) == before + [row];
    VersionsOfAppend(before, row);
    VersionNumbersAppend(VersionsOf(before, sid), row);
    var prev := VersionNumbers(VersionsOf(before, sid));
    assert VersionNumbers(VersionsOf(AppendVersion(before, sid, a), sid)) == prev + [n];
    assert NumberedOneTo(prev + [n], n) by {
      forall i | 0 <= i < n ensures (prev + [n])[i] == i + 1 {
        if i < n - 1 {
          assert (prev + [n])[i] == prev[i];
        }
      }
    }
  }

  /** N sequential saves to a session without versions are numbered exactly 1, 2, …, N in order. */
  lemma {:induction false} SequentialSavesNumbered(versions: seq<VersionRow>, sid: int, saves: seq<SaveArgs>)
    requires VersionsOf(versions, sid) == []
    ensures NumberedOneTo(VersionNumbers(VersionsOf(SaveEach(versions, sid, saves), sid)), |saves|)
    ensures NextVersion(SaveEach(versions, sid, saves), sid) == |saves| + 1
  {
    if saves == [] {
      FirstVersionIsOne(versions, sid);
    } else {
      var n := |saves|;
      assert |saves[..n - 1]| == n - 1;
      SequentialSavesNumbered(versions, sid, saves[..n - 1]);
      SaveExtendsNumbering(SaveEach(versions, sid, saves[..n - 1]), sid, saves[n - 1], n);
    }
  }

  ghost predicate Numbered(versions: seq<VersionRow>) {
    forall i, j | 0 <= i < j < |versions| && versions[i].sessionId == versions[j].sessionId ::
      versions[i].version < versions[j].version
  }

  /** With per-session numbers increasing in table order, a session's rows in table order have increasing numbers. */
  lemma {:induction false} VersionsOfAscending(versions: seq<VersionRow>, sid: int)
    requires Numbered(versions)
    ensures forall i, j | 0 <= i < j < |VersionsOf(versions, sid)| ::
      VersionsOf(versions, sid)[i].version < VersionsOf(versions, sid)[j].version
  {
    if |versions| > 0 {
      var init := versions[..|versions| - 1];
      var last := versions[|versions| - 1];
      assert Numbered(init);
      VersionsOfAscending(init, sid);
      var h := VersionsOf(init, sid);
      if last.sessionId == sid {
        forall k | 0 <= k < |h| ensures h[k].version < last.version {
          var p := VersionsOfMember(init, sid, k);
          assert versions[p] == h[k];
        }
      }
    }
  }

  /** Every row of a session's listing is a row of the table. */
  lemma {:induction false} VersionsOfMember(versions: seq<VersionRow>, sid: int, k: nat) returns (p: nat)
    requires k < |VersionsOf(versions, sid)|
    ensures p < |versions| && versions[p] == VersionsOf(versions, sid)[k] && versions[p].sessionId == sid
  {
    var init := versions[..|versions| - 1];
    if k < |VersionsOf(init, sid)| {
      p := VersionsOfMember(init, sid, k);
    } else {
      p := |versions| - 1;
    }
  }

  /** Every row of the session appears in its listing. */
  lemma {:induction false} VersionsOfHas(versions: seq<VersionRow>, sid: int, p: nat) returns (k: nat)
    requires p < |versions| && versions[p].sessionId == sid
    ensures k < |VersionsOf(versions, sid)| && VersionsOf(versions, sid)[k] == versions[p]
  {
    var init := versions[..|versions| - 1];
    if p < |versions| - 1 {
      k := VersionsOfHas(init, sid, p);
    } else {
      k := |VersionsOf(init, sid)|;
    }
  }

  function Reverse<T>(s: seq<T>): (r: seq<T>)
    ensures |r| == |s|
    ensures forall i | 0 <= i < |s| :: r[i] == s[|s| - 1 - i]
  {
    if s == [] then [] else Reverse(s[1..]) + [s[0]]
  }

  lemma ReverseSameMultiset<T>(s: seq<T>)
    ensures multiset(Reverse(s)) == multiset(s)
  {
    if s != [] {
      assert s == [s[0]] + s[1..];
    }
  }

  /** getComponentVersions: ORDER BY version DESC, computed as the session's rows newest first. */
  function NewestVersionsFirst(versions: seq<VersionRow>, sid: int): (r: seq<VersionRow>)
    ensures |r| == |VersionsOf(versions, sid)|
    ensures forall k | 0 <= k < |r| :: r[k].sessionId == sid
  {
    Reverse(VersionsOf(versions, sid))
  }

  /** The newest-first listing is exactly the session's rows, in strictly descending version order. */
  lemma NewestVersionsFirstDescending(versions: seq<VersionRow>, sid: int)
    requires Numbered(versions)
    ensures var r := NewestVersionsFirst(versions, sid);
      && (forall x :: multiset(r)[x] == if x.sessionId == sid then multiset(versions)[x] else 0)
      && (forall i, j | 0 <= i < j < |r| :: r[i].version > r[j].version)
  {
    VersionsOfAscending(versions, sid);
    VersionsOfContents(versions, sid);
    ReverseSameMultiset(VersionsOf(versions, sid));
  }

  /** getLatestComponentVersion: ORDER BY version DESC LIMIT 1. */
  function LatestVersion(versions: seq<VersionRow>, sid: int): (r: Option<VersionRow>)
    ensures r.None? <==> VersionsOf(versions, sid) == []
    ensures r.Some? ==> r.value.sessionId == sid
  {
    var r := NewestVersionsFirst(versions, sid);
    if r == [] then None else Some(r[0])
  }

  /** The latest row is the session's row with the largest number, and there is none exactly when the session has no rows. */
  lemma LatestIsMax(versions: seq<VersionRow>, sid: int)
    requires Numbered(versions)
    ensures LatestVersion(versions, sid).None? <==> MaxVersion(versions, sid).None?
    ensures LatestVersion(versions, sid).Some? ==>
      && LatestVersion(versions, sid).value in versions
      && LatestVersion(versions, sid).value.sessionId == sid
      && LatestVersion(versions, sid).value.version == MaxVersion(versions, sid).value
  {
    if VersionsOf(versions, sid) == [] {
      VersionsOfEmpty(versions, sid);
    } else {
      LatestIsLast(versions, sid);
    }
  }

  /** A session with rows: its latest row is the last of its listing and carries the largest number. */
  lemma LatestIsLast(versions: seq<VersionRow>, sid: int)
    requires Numbered(versions)
    requires VersionsOf(versions, sid) != []
    ensures MaxVersion(versions, sid).Some?
    ensures LatestVersion(versions, sid).Some?
    ensures LatestVersion(versions, sid).value in versions
    ensures LatestVersion(versions, sid).value.sessionId == sid
    ensures LatestVersion(versions, sid).value.version == MaxVersion(versions, sid).value
  {
    var h := VersionsOf(versions, sid);
    var last := h[|h| - 1];
    assert NewestVersionsFirst(versions, sid)[0] == last;
    var p := VersionsOfMember(versions, sid, |h| - 1);
    var m := MaxVersion(versions, sid).value;
    var i :| 0 <= i < |versions| && versions[i].sessionId == sid && versions[i].version == m;
    var k := VersionsOfHas(versions, sid, i);
    VersionsOfAscending(versions, sid);
    assert versions[p].version <= m;
  }
}
