# Ai-Driven-Micro core in Dafny

Ai-Driven-Micro is a Next.js application. A signed-in user chats with a language model. The model writes React
components, and every component the user accepts is saved as a numbered version of the chat session. This
project models the parts of it that carry behaviour:

- **The store** of `lib/db.ts` (`store.dfy`, with the SQL query semantics in `tables.dfy`). It is the class
  `Store.Db`, which holds the users, sessions, chat_messages and component_versions tables as sequences. A
  logical clock stands in for `CURRENT_TIMESTAMP`, and one counter per table stands in for the SERIAL ids. Every
  INSERT and UPDATE takes one tick of the clock; SELECTs, including the MAX(version) read of
  saveComponentVersion, read the tables without ticking. The mutating operations are methods that keep the invariant
  `Db.Valid()`:
  - emails are unique;
  - session ids ascend below the id counter;
  - every session's updated_at and every message's created_at is older than the clock;
  - messages are stored in creation order;
  - each session's version numbers increase in table order.

  The getters are functions of the tables.
- **The edge guard** of `middleware.ts` (`guard.dfy`): the public-route exemption, the cookie and token
  decision, and the `config.matcher` scope.
- **The credential helpers** of `lib/auth.ts` (`auth.dfy`). bcrypt and jose are function parameters.
- **The route handlers** for saving a component, chatting and signing up (`components_route.dfy`,
  `chat_route.dfy`, `signup_route.dfy`). `http.dfy` holds the response values and the checks the two protected
  routes share. Each handler is a method over a `Store.Db`.
- **The client reconciliation** of `components/chat-interface.tsx` (`chat_interface.dfy`):
  - the mapping of stored messages into the chat widget;
  - the extraction of a `{…}` span from a finished reply, and what follows from it;
  - the submit handler, as the class `ChatBox`.

A foreign-key or UNIQUE violation makes the SQL driver throw. In the model, a write that would violate one
returns `None` and leaves the store unchanged. The schema file is not part of this model. The constraints
assumed are UNIQUE(users.email) and the foreign keys sessions.user_id, chat_messages.session_id and
component_versions.session_id.

Three facts about the code that the model keeps:
- `middleware.ts` redirects a request under `/api/protected` that lacks a valid token to `/login` (lines 19
  and 25); it never answers 401 itself. Because the matcher (lines 33-35) covers every path under `/api/protected`,
  the handlers' own 401 answers are a second line of defence that such a request reaches only if the middleware
  is bypassed.
- A duplicate email that reaches `db.createUser` makes the driver throw, which a handler's catch turns into 500.
  Only the pre-check of `app/api/auth/signup/route.ts` (lines 13-17) answers 409.
- The successful handlers answer with the default status 200.

## Model

| member | source | states |
|---|---|---|
| Common.OrEmpty | components/chat-interface.tsx:47 | `s \|\| ""`: a missing or empty string becomes "", any other string is kept |
| Tables.UserByEmail | lib/db.ts:48-55 | none exactly when no row has the email; otherwise a row of the table with that email |
| Tables.UserById | lib/db.ts:57-64 | none exactly when no row has the id; otherwise the hash-free projection of a row with that id |
| Tables.UserByEmailFindsRow | lib/db.ts:48-55 | with unique emails, looking up any row's email returns exactly that row |
| Tables.UserByEmailAfterInsert | lib/db.ts:39-46 | after inserting a row with a fresh email, looking that email up returns the new row |
| Tables.SessionFor | lib/db.ts:86-93 | none exactly when no row matches both id and user_id; otherwise a row matching both |
| Tables.OnlyOwnerSeesSession | lib/db.ts:86-93 | with unique ids, a session is returned to its owner and to no other user |
| Tables.OwnedBy | lib/db.ts:76-84 | the filter keeps exactly the user's rows, each as often as the table holds it |
| Tables.InsertByRecency | lib/db.ts:81 | inserting into a newest-first list gives a newest-first permutation of the list plus the row |
| Tables.NoNewerThan | lib/db.ts:81 | a permutation of rows that all respect a timestamp bound respects it too |
| Tables.ByRecency | lib/db.ts:81 | ORDER BY updated_at DESC yields a permutation of its input, newest first |
| Tables.UserSessions | lib/db.ts:76-84 | exactly the user's sessions, most recently updated first |
| Tables.Touch | lib/db.ts:112-116 | the same rows in the same order; only updated_at changes, to the new tick, and only for rows with that id |
| Tables.Retitle | lib/db.ts:95-101 | the same rows in the same order; only title and updated_at change, and only for rows with that id |
| Tables.NewestFirstCons | lib/db.ts:81 | a row at least as recent as every row of a newest-first list can head it |
| Tables.TouchedSessionFirst | lib/db.ts:111-116 | after a session is bumped to a tick newer than every session's updated_at, it heads its owner's list with that tick |
| Tables.UserSessionsHead | lib/db.ts:76-84 | the head of a user's list is one of the user's rows, at least as recent as any of them |
| Tables.TouchOnlyBumps | lib/db.ts:112-116 | the timestamp UPDATE moves only the rows of the given id up to the new tick |
| Tables.MessagesOf | lib/db.ts:121-129 | a session's history is no longer than the table and holds only that session's messages |
| Tables.MessagesOfContents | lib/db.ts:121-129 | the history holds exactly the session's messages, each as often as the table does |
| Tables.HistoryAscending | lib/db.ts:126 | messages stored in creation order give a history in strictly ascending created_at |
| Tables.MessagesOfMember | lib/db.ts:121-129 | every history entry is a row of the table |
| Tables.AppendedMessageLast | lib/db.ts:104-119 | an appended message joins its own session's history once, last, after the unchanged earlier history; other histories are unchanged |
| Tables.VersionsOf | lib/db.ts:168-176 | a session's listing is no longer than the table and holds only that session's rows |
| Tables.VersionsOfContents | lib/db.ts:168-176 | the listing holds exactly the session's rows, each as often as the table does |
| Tables.VersionsOfEmpty | lib/db.ts:157-166 | the listing is empty exactly when no row belongs to the session |
| Tables.MaxVersion | lib/db.ts:134-138 | MAX(version) is null exactly without rows; otherwise it bounds every row of the session and is attained by one |
| Tables.NextVersion | lib/db.ts:134-139 | COALESCE(MAX,0)+1: 1 for a session without rows; otherwise one more than a version some row of the session carries, and above every version of the session |
| Tables.AppendVersion | lib/db.ts:141-145 | the table keeps its rows and gains one row for the session, with the call's id, code and tick, numbered above every earlier version of the session, and 1 for its first |
| Tables.NextVersionAfterSave | lib/db.ts:132-155 | a save raises the session's next number by exactly one and leaves every other session's next number alone |
| Tables.VersionsOfAppend | lib/db.ts:141-145 | an appended row of a session becomes the last entry of that session's listing |
| Tables.VersionNumbersAppend | lib/db.ts:141-145 | the number list of an extended listing is extended by the new number |
| Tables.FirstVersionIsOne | lib/db.ts:134-139 | a session with no rows gets version 1 |
| Tables.SaveExtendsNumbering | lib/db.ts:134-145 | one save extends a numbering 1..n-1 to 1..n and makes n+1 next |
| Tables.SequentialSavesNumbered | lib/db.ts:134-145 | N sequential saves to a session without versions are numbered exactly 1..N, with no gap or repeat |
| Tables.VersionsOfAscending | lib/db.ts:134-145 | with numbers increasing in table order, a session's listing has strictly increasing numbers |
| Tables.VersionsOfMember | lib/db.ts:168-176 | every listing entry is a row of the table with that session id |
| Tables.VersionsOfHas | lib/db.ts:168-176 | every row of the session appears in its listing |
| Tables.Reverse | lib/db.ts:173 | reversal keeps the length and mirrors the indices |
| Tables.ReverseSameMultiset | lib/db.ts:173 | reversal is a permutation |
| Tables.NewestVersionsFirst | lib/db.ts:168-176 | as many rows as the session has, all of that session |
| Tables.NewestVersionsFirstDescending | lib/db.ts:168-176 | getComponentVersions holds exactly the session's rows, in strictly descending version order |
| Tables.LatestVersion | lib/db.ts:157-166 | null exactly when the session has no rows; otherwise a row of that session |
| Tables.LatestIsMax | lib/db.ts:157-166 | the latest version is null exactly when MAX is null; otherwise it is a row of the session carrying MAX(version) |
| Tables.LatestIsLast | lib/db.ts:157-166 | for a session with rows, ORDER BY version DESC LIMIT 1 is a row of the session carrying the maximum |
| Store.SessionsOkAfterTouch | lib/db.ts:112-116 | the timestamp UPDATE keeps session ids ordered and every session's updated_at older than the advanced clock |
| Store.SessionsOkAfterRetitle | lib/db.ts:95-101 | the title UPDATE keeps the sessions invariant |
| Store.MessagesOkLater | lib/db.ts:104-119 | advancing the clock keeps the messages invariant |
| Store.SessionsOkLater | lib/db.ts:66-74 | advancing the clock keeps the sessions invariant |
| Store.CreateUserOk | lib/db.ts:39-46 | inserting a user with a fresh email keeps the store invariant |
| Store.CreateSessionOk | lib/db.ts:67-74 | inserting a session with the next id at the current tick keeps the store invariant |
| Store.RetitleOk | lib/db.ts:95-101 | renaming a session keeps the store invariant |
| Store.AddMessageOk | lib/db.ts:104-119 | the message INSERT then the timestamp UPDATE keep the store invariant |
| Store.SaveVersionOk | lib/db.ts:132-155 | the numbered version INSERT then the timestamp UPDATE keep the store invariant |
| Store.NumberedAfterSave | lib/db.ts:134-145 | a row numbered COALESCE(MAX,0)+1 keeps every session's numbers increasing in table order |
| Store.NewestIsSaved | lib/db.ts:141-166 | right after a save, the saved row is the session's latest version |
| Store.HeadsOwnerList | lib/db.ts:76-84 | after a message append (lines 112-116) or a version save (lines 148-152) bumps a session, that session heads its owner's list |
| Store.Db.constructor | lib/db.ts:37 | the store starts empty and valid |
| Store.Db.CreateUser | lib/db.ts:39-46 | fails exactly when the email is taken, changing nothing; otherwise appends one user row with the next id at the current tick and returns it without the hash |
| Store.Db.GetUserByEmail | lib/db.ts:48-55 | nothing exactly when no row has the email; otherwise the one row with that email, hash included |
| Store.Db.GetUserById | lib/db.ts:57-64 | nothing exactly when no row has the id; otherwise the hash-free projection of a row with that id |
| Store.Db.CreateSession | lib/db.ts:67-74 | succeeds exactly when the owner exists; records that owner, the given title or "Untitled Session", the next id and equal timestamps; appends only that row |
| Store.Db.GetUserSessions | lib/db.ts:76-84 | exactly the user's sessions, newest update first |
| Store.Db.GetSession | lib/db.ts:86-93 | a session exactly when one matches both id and user; it matches both, and no other user sees it |
| Store.Db.UpdateSessionTitle | lib/db.ts:95-101 | only the rows with that id change, and only their title and updated_at; no owner check; the other tables are unchanged |
| Store.Db.AddChatMessage | lib/db.ts:104-119 | succeeds exactly when the session exists; appends one message with the given role and content at one tick and bumps the session at the next; changes nothing else |
| Store.Db.GetChatMessages | lib/db.ts:121-129 | exactly the session's messages, in strictly ascending created_at |
| Store.Db.SaveComponentVersion | lib/db.ts:132-155 | succeeds exactly when the session exists; appends one row numbered COALESCE(MAX,0)+1 and bumps only that session; users and messages are unchanged |
| Store.Db.GetLatestComponentVersion | lib/db.ts:157-166 | nothing exactly when the session has no rows; otherwise its row with the largest number, which is the first of GetComponentVersions |
| Store.Db.GetComponentVersions | lib/db.ts:168-176 | exactly the session's rows, in strictly descending version order |
| Auth.HashPassword | lib/auth.ts:14-16 | bcrypt is called with the password and the fixed cost 12 |
| Auth.TokenRequest | lib/auth.ts:22-31 | the signed claims are exactly id, email and name, with HS256 and an expiry 604800 seconds (seven days) after the signing instant; no iat claim is set |
| Auth.GenerateToken | lib/auth.ts:22-31 | the token is what the signer returns for the user's claims, HS256, issued now and expiring seven days later |
| Auth.VerifyToken | lib/auth.ts:33-44 | none exactly when verification fails, never an error; otherwise exactly the payload's id, email and name |
| Auth.TokenRoundTrip | lib/auth.ts:22-44 | given a faithful jose, a token issued now verifies to the same user for the next seven days |
| Auth.AuthenticateUser | lib/auth.ts:46-51 | none exactly for an unknown email or a password that fails bcrypt.compare; otherwise the matching row's id, email and name, never the hash |
| Auth.LoginAfterSignup | lib/auth.ts:14-51 | given a correct bcrypt, logging in with the password just stored as a cost-12 hash yields the new account |
| Guard.Middleware | middleware.ts:5-31 | public paths pass; a missing or empty cookie redirects and keeps the cookie; a failing token redirects and deletes it; a verified token passes |
| Guard.Guard | middleware.ts:33-35 | paths outside the matcher pass untouched; matched paths pass exactly when the cookie holds a verifying token |
| Guard.MatchedIsPrivate | middleware.ts:9-35 | no path the matcher selects is a public route |
| Guard.ApiWithoutTokenRedirects | middleware.ts:16-35 | under /api/protected a missing or invalid token is a redirect to /login, not a 401 |
| Http.Authorize | app/api/protected/components/route.ts:7-15 | a missing or empty cookie is 401 "Unauthorized"; a failing token is 401 "Invalid token"; otherwise the verified user |
| Http.OwnedSession | app/api/protected/components/route.ts:19-23 | passes exactly when the body names a session the caller owns; otherwise 404 "Session not found" |
| Http.IssuedTokenAuthorizes | app/api/protected/components/route.ts:7-15 | given a faithful jose, the cookie issued at signup (app/api/auth/signup/route.ts line 23) passes the cookie and token checks of the protected routes for seven days |
| Http.OwnedSessionExists | app/api/protected/components/route.ts:19-25 | a session that passes the ownership check exists, so the save that follows cannot break its foreign key |
| Http.Admit | app/api/protected/components/route.ts:7-23 | cookie, then token (401s), then a JSON body (500), then ownership (404), in that order; a pass carries the id of a stored session the caller owns, named by the body |
| ComponentsRoute.Post | app/api/protected/components/route.ts:5-32 | a refusal of the check chain is answered as is and leaves the store unchanged; a pass stores and returns, with status 200, exactly one version with the request's code, numbered next for its session, and bumps only that session |
| ChatRoute.Render | app/api/protected/chat/route.ts:48 | a template interpolation writes a string as itself and NULL as "null" |
| ChatRoute.ComponentContext | app/api/protected/chat/route.ts:48 | "No existing component" exactly when there is no version; otherwise "JSX: ", the JSX, then "\nCSS: " and the CSS |
| ChatRoute.SystemPrompt | app/api/protected/chat/route.ts:37-55 | the fixed instructions, then the component context, then the fixed response-format text |
| ChatRoute.ContextShowsCode | app/api/protected/chat/route.ts:48 | the context paragraph carries the JSX and the CSS verbatim |
| ChatRoute.PromptShowsLatestCode | app/api/protected/chat/route.ts:37-55 | the system prompt contains the latest version's JSX and CSS, NULL written as "null" |
| ChatRoute.PromptTellsWhetherComponentExists | app/api/protected/chat/route.ts:48 | without a version the context reads "No existing component", and that prompt differs from every prompt with a version |
| ChatRoute.Window | app/api/protected/chat/route.ts:60 | slice(-10) is the suffix of the last min(10, n) messages |
| ChatRoute.AsPrompt | app/api/protected/chat/route.ts:60-63 | each message keeps its content and its user or assistant role, never system |
| ChatRoute.ModelInput | app/api/protected/chat/route.ts:58-64 | one to eleven entries: the first is the only system entry |
| ChatRoute.ModelInputShape | app/api/protected/chat/route.ts:58-64 | the input is the system prompt followed by the window, entry by entry |
| ChatRoute.SuffixChronological | app/api/protected/chat/route.ts:60 | every suffix of an ascending history is ascending |
| ChatRoute.WindowChronological | app/api/protected/chat/route.ts:60 | the window of an ascending history is ascending |
| ChatRoute.Post | app/api/protected/chat/route.ts:9-77 | a refusal of the check chain (401/500/404) is answered as is and writes nothing; otherwise exactly the user's message is written, no version and no assistant message, and the model input is built from the stored history |
| ChatRoute.StoreAndPrompt | app/api/protected/chat/route.ts:30-64 | the user's message is the one row written and its session is bumped; the model input is built from the history that now holds it |
| ChatRoute.PrepareModelInput | app/api/protected/chat/route.ts:33-64 | the model input is built from the session's current history and latest version |
| ChatRoute.PromptEndsWithUserMessage | app/api/protected/chat/route.ts:30-33 | because the user's message is stored before the history is read, the model input ends with it |
| SignupRoute.SessionCookie | app/api/auth/signup/route.ts:31-36 | the cookie is auth-token, httpOnly, secure only in production, SameSite=Lax, maxAge 604800, the token lifetime |
| SignupRoute.Post | app/api/auth/signup/route.ts:5-43 | 500 for a non-JSON body, 400 for a missing field, 409 for a taken email, each writing nothing; otherwise one user holding the cost-12 hash, the account without the hash, and a cookie with its token |
| ChatInterface.Digits | components/chat-interface.tsx:34 | a non-empty run of decimal digits with no leading zero; 0 is exactly "0" |
| ChatInterface.DigitsRoundTrip | components/chat-interface.tsx:34 | the digits of n read back as n |
| ChatInterface.DecimalString | components/chat-interface.tsx:34 | a leading minus exactly for negatives, then at least one digit and digits only, with no leading zero, and exactly "0" for 0: toString's form for the safe integers a SERIAL id can be |
| ChatInterface.DecimalRoundTrip | components/chat-interface.tsx:34 | id.toString() reads back as the same integer |
| ChatInterface.ToUiMessage | components/chat-interface.tsx:33-37 | role and content unchanged; the string id is the canonical decimal string of the numeric id and reads back as it |
| ChatInterface.InitialMessages | components/chat-interface.tsx:33-37 | same length and order, role and content unchanged, and each string id is the canonical decimal string of its numeric id and reads back as it |
| ChatInterface.DistinctIdsStayDistinct | components/chat-interface.tsx:33-37 | messages with different ids keep different string ids |
| ChatInterface.FirstIndex | components/chat-interface.tsx:42 | none exactly when the character is absent; otherwise its first position |
| ChatInterface.LastIndex | components/chat-interface.tsx:42 | none exactly when the character is absent; otherwise its last position |
| ChatInterface.JsonSpan | components/chat-interface.tsx:42 | no match exactly when no `}` follows a `{`; otherwise from the first `{` to the last `}` |
| ChatInterface.JsonMatch | components/chat-interface.tsx:42 | no match exactly when no `}` follows a `{`; a match starts with `{`, ends with `}`, and is a stretch of the reply with no `{` before it and no `}` after it |
| ChatInterface.OnFinish | components/chat-interface.tsx:38-64 | nothing happens without a match, on a parse failure or with a falsy jsx; otherwise the callback, then the save, both with the same jsx and the same css defaulted to "" |
| ChatInterface.TrimStart | components/chat-interface.tsx:75 | drops exactly the leading white space |
| ChatInterface.TrimEnd | components/chat-interface.tsx:75 | drops exactly the trailing white space |
| ChatInterface.Trim | components/chat-interface.tsx:75 | a stretch of the input with only white space before and after it, and none at either of its ends |
| ChatInterface.TrimIsSlice | components/chat-interface.tsx:75 | what trim keeps sits in the input right after the leading white space, with only white space after it |
| ChatInterface.TrimEmptyIffBlank | components/chat-interface.tsx:75 | `!input.trim()` holds exactly for empty or all-white-space input |
| ChatInterface.ChatBox.constructor | components/chat-interface.tsx:27-30 | the field starts empty and nothing has been posted |
| ChatInterface.ChatBox.Type | components/chat-interface.tsx:27 | typing sets the field and posts nothing |
| ChatInterface.ChatBox.HandleSubmit | components/chat-interface.tsx:30 | useChat's submit posts its own input unless it is empty, then clears it |
| ChatInterface.ChatBox.OnSubmitAsWritten | components/chat-interface.tsx:73-79 | blank input or a pending request does nothing; otherwise the field is cleared and nothing is posted |
| ChatInterface.ChatBox.OnSubmit | components/chat-interface.tsx:73-79 | blank input or a pending request does nothing; otherwise the typed text is posted and the field cleared |
| ChatInterface.RequestNotBlank | components/chat-interface.tsx:75 | "make a button" is not blank, so onSubmit's guard lets it through |
| ChatInterface.TypedRequestIsLost | components/chat-interface.tsx:73-79 | as written, typing "make a button" and submitting clears the field and posts nothing |
| ChatInterface.TypedRequestIsPosted | components/chat-interface.tsx:73-79 | as intended, the same keystrokes post "make a button" |

## Left out

- The Neon driver, the network and real timestamps. Tables are sequences and `CURRENT_TIMESTAMP` is a logical clock with one tick per INSERT or UPDATE, so two writes never share a timestamp. Ties between real timestamps are not modelled.
- Store.Db.Valid: the invariant does not include the foreign keys, the uniqueness of user, message and version ids, or that those ids stay below their counters (only session ids are kept ordered below theirs). No property here needs them, and the store enforces the foreign keys at each write instead.
- Store.Db.Valid: the invariant does not state that a session's updated_at is at least the created_at of its newest message and version. Each write's consequence for the session list is proved instead: Tables.TouchedSessionFirst and Store.HeadsOwnerList show that the session just written to is bumped past every session's updated_at and heads its owner's list.
- Store.Db.SaveComponentVersion, Store.Db.AddChatMessage: the contracts give the new tables, not the history, owner-list and latest-version consequences. Those are the lemmas Tables.AppendedMessageLast, Store.HeadsOwnerList and Store.NewestIsSaved.
- The race between concurrent saveComponentVersion calls, which read MAX(version) before inserting without a lock or transaction. Only sequential calls are modelled.
- bcrypt and jose. They are function parameters, so the bcrypt salt is folded into `hash`. A sign/verify round trip or a password matching its own hash appears only as a `requires` about the library.
- The unchecked casts in verifyToken (`payload.id as number`): the payload is typed, so a token whose claims have other types is not modelled.
- The language-model call (`streamText`) and its streamed answer. ChatRoute.Post returns the input it would hand to the model.
- JSON.parse and request.json(). A body that is not JSON is `None`, and the handlers answer 500. Fields of the wrong JSON type are not modelled.
- Errors thrown by the database driver other than constraint violations: a failed connection answering 500 is not modelled.
- ChatRoute.ChatRequest: the request's `message` is modelled as a string. A body without a `message` string is not modelled.
- ChatInterface.DecimalString: ids are taken to be safe integers; SERIAL keeps them below 2^31. `StoredMessage.id` is an unbounded `int`, while `id.toString()` works on a double. The exponent form toString uses from 1e21 on ("1e+21") and the rounding of integers above 2^53 are not modelled.
- The fetch in onFinish: the POST is an effect in ChatInterface.OnFinish's result, and its response is not looked at. The catch block's logging is not modelled.
- console.error logging, the React rendering and scrolling of chat-interface.tsx, the page, sidebar and preview components, and the session list/detail, login and logout routes. None of these is part of this model.

## Findings

| source | as written | input that shows it | evidently intended | confidence | as-written member | corrected member |
|---|---|---|---|---|---|---|
| components/chat-interface.tsx:73-79 | onSubmit checks the component's own `input` state (line 27), then calls useChat's `handleSubmit`. That function posts useChat's internal input, which the component never binds or writes (line 30 does not take `input` from useChat), and then clears the field | type "make a button" into the field and submit while no request is pending: the field is cleared and no chat request is posted | the typed text is posted to /api/protected/chat and the field cleared | medium; not executed; it relies on useChat's handleSubmit sending only useChat's own input | ChatInterface.ChatBox.OnSubmitAsWritten, ChatInterface.TypedRequestIsLost | ChatInterface.ChatBox.OnSubmit, ChatInterface.TypedRequestIsPosted |
