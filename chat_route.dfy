/**
 * POST /api/protected/chat (app/api/protected/chat/route.ts): the shared check chain, then the user's message is
 * stored, then the model input is built from the stored history and the latest component.  The model call and its
 * streamed answer are outside the model; the handler's result is the input it hands to the model.
 */
module ChatRoute {
  import opened Common
  import opened Tables
  import opened Auth
  import opened Http
  import opened Store

  /** The destructured JSON body. */
  datatype ChatRequest = ChatRequest(message: string, sessionId: Option<int>)

  datatype PromptRole = System | User | Assistant

  /** One entry of the `messages` array given to streamText. */
  datatype PromptMessage = PromptMessage(role: PromptRole, content: string)

  /** A JSON error response, or the model's data stream, represented by the input it was started with. */
  datatype ChatReply = Reply(response: Response) | Streamed(input: seq<PromptMessage>)

  /** How many stored messages (`slice(-10)`) reach the model. */
  const HISTORY_WINDOW: nat := 10

  const PROMPT_HEAD :=
    "You are an expert React component generator. Generate clean, modern React components based on user requests.\n\n"
    + "Rules:\n1. Always return valid JSX/TSX code\n2. Use modern React patterns (functional components, hooks)\n"
    + "3. Include proper TypeScript types when applicable\n4. Use Tailwind CSS for styling\n"
    + "5. Make components responsive and accessible\n6. If modifying existing code, apply only the requested changes\n\n"
    + "Current component context:\n"

  const PROMPT_TAIL :=
    "\n\nFormat your response as JSON with this structure:\n{\n  \"jsx\": \"// Your JSX/TSX code here\",\n"
    + "  \"css\": \"/* Your CSS code here (if needed) */\",\n"
    + "  \"explanation\": \"Brief explanation of what you created/changed\"\n}"

  const NO_COMPONENT := "No existing component"

  /** A template-string interpolation of a nullable column: NULL prints as "null". */
  function Render(s: Option<string>): (r: string)
    ensures s.Some? ==> r == s.value
    ensures s.None? ==> r == "null"
  {
    if s.None? then "null" else s.value
  }

  /** The component-context paragraph: the latest version's code, or a fixed sentence when there is none. */
  function ComponentContext(latest: Option<VersionRow>): (r: string)
    ensures r == NO_COMPONENT <==> latest.None?
    ensures latest.Some? ==> Framed("JSX: ", Render(latest.value.jsxCode), "\nCSS: " + Render(latest.value.cssCode), r)
  {
    if latest.None? then NO_COMPONENT
    else
      var jsx, css := Render(latest.value.jsxCode), Render(latest.value.cssCode);
      Frame("JSX: ", jsx, "\nCSS: " + css);
      assert "JSX: " + jsx + "\nCSS: " + css == "JSX: " + jsx + ("\nCSS: " + css);
      assert ("JSX: " + jsx + "\nCSS: " + css)[0] == 'J';
      "JSX: " + jsx + "\nCSS: " + css
  }

  function SystemPrompt(latest: Option<VersionRow>): (r: string)
    ensures Framed(PROMPT_HEAD, ComponentContext(latest), PROMPT_TAIL, r)
  {
    Frame(PROMPT_HEAD, ComponentContext(latest), PROMPT_TAIL);
    PROMPT_HEAD + ComponentContext(latest) + PROMPT_TAIL
  }

  /** `whole` is `head`, then `middle`, then `tail`, each at its own offset. */
  ghost predicate Framed(head: string, middle: string, tail: string, whole: string) {
    && |whole| == |head| + |middle| + |tail|
    && whole[..|head|] == head
    && whole[|head|..|head| + |middle|] == middle
    && whole[|head| + |middle|..] == tail
  }

  lemma Frame(head: string, middle: string, tail: string)
    ensures Framed(head, middle, tail, head + middle + tail)
  {
    var whole := head + middle + tail;
    assert whole[..|head|] == head;
    assert whole[|head|..|head| + |middle|] == middle;
    assert whole[|head| + |middle|..] == tail;
  }

  /** `part` occurs in `whole` as a contiguous substring. */
  ghost predicate Occurs(part: string, whole: string) {
    exists i :: OccursAt(part, whole, i)
  }

  /** Whatever text surrounds the context paragraph, both pieces of code occur in the result. */
  lemma ContextShowsCode(head: string, jsx: string, css: string, tail: string)
    ensures Occurs(jsx, head + ("JSX: " + jsx + "\nCSS: " + css) + tail)
    ensures Occurs(css, head + ("JSX: " + jsx + "\nCSS: " + css) + tail)
  {
    var whole := head + ("JSX: " + jsx + "\nCSS: " + css) + tail;
    assert OccursAt(jsx, whole, |head| + 5);
    assert OccursAt(css, whole, |head| + 5 + |jsx| + 6);
  }

  /** The system prompt inlines the latest version's JSX and CSS (NULL rendered as "null"). */
  lemma PromptShowsLatestCode(v: VersionRow)
    ensures Occurs(Render(v.jsxCode), SystemPrompt(Some(v)))
    ensures Occurs(Render(v.cssCode), SystemPrompt(Some(v)))
  {
    ContextShowsCode(PROMPT_HEAD, Render(v.jsxCode), Render(v.cssCode), PROMPT_TAIL);
  }

  /** Without a saved version the prompt says so, and it never reads like the prompt of any saved version. */
  lemma PromptTellsWhetherComponentExists(v: VersionRow)
    ensures SystemPrompt(None)[|PROMPT_HEAD|..|PROMPT_HEAD| + |NO_COMPONENT|] == NO_COMPONENT
    ensures SystemPrompt(Some(v)) != SystemPrompt(None)
  {
    assert SystemPrompt(Some(v))[|PROMPT_HEAD|] == 'J';
    assert SystemPrompt(None)[|PROMPT_HEAD|] == 'N';
  }

  /** `slice(-10)`: the last min(10, n) messages, in their order. */
  function Window(history: seq<MessageRow>): (r: seq<MessageRow>)
    ensures |r| == if |history| < HISTORY_WINDOW then |history| else HISTORY_WINDOW
    ensures r == history[|history| - |r|..]
  {
    if |history| <= HISTORY_WINDOW then history else history[|history| - HISTORY_WINDOW..]
  }

  /** A stored message as the model sees it: role and content, nothing else. */
  function AsPrompt(m: MessageRow): (p: PromptMessage)
    ensures p.content == m.content
    ensures p.role == User <==> m.role == UserRole
    ensures p.role != System
  {
    PromptMessage(if m.role == UserRole then User else Assistant, m.content)
  }

  /** The messages as the model sees them, one entry per message. */
  function AsPrompts(w: seq<MessageRow>): seq<PromptMessage> {
    seq(|w|, i requires 0 <= i < |w| => AsPrompt(w[i]))
  }

  /** The system prompt followed by the window, mapped message by message. */
  function ModelInput(latest: Option<VersionRow>, history: seq<MessageRow>): (r: seq<PromptMessage>)
    ensures 1 <= |r| <= 1 + HISTORY_WINDOW
    ensures r[0].role == System
    ensures forall i | 1 <= i < |r| :: r[i].role != System
  {
    var w := Window(history);
    var rest := AsPrompts(w);
    assert forall i | 0 <= i < |rest| :: rest[i].role != System;
    [PromptMessage(System, SystemPrompt(latest))] + rest
  }

  /** The model input opens with the system prompt and then holds the window, entry by entry. */
  lemma ModelInputShape(latest: Option<VersionRow>, history: seq<MessageRow>)
    ensures var r := ModelInput(latest, history);
      && |r| == 1 + |Window(history)|
      && r[0] == PromptMessage(System, SystemPrompt(latest))
      && forall i | 0 <= i < |Window(history)| :: r[i + 1] == AsPrompt(Window(history)[i])
  {
    PrefixedPrompts(PromptMessage(System, SystemPrompt(latest)), Window(history));
  }

  /** Whatever entry comes first, the messages follow it one for one. */
  lemma PrefixedPrompts(first: PromptMessage, w: seq<MessageRow>)
    ensures var r := [first] + AsPrompts(w);
      && |r| == 1 + |w| && r[0] == first
      && forall i | 0 <= i < |w| :: r[i + 1] == AsPrompt(w[i])
  {
    var rest := AsPrompts(w);
    forall i | 0 <= i < |w| ensures ([first] + rest)[i + 1] == AsPrompt(w[i]) {
      assert rest[i] == AsPrompt(w[i]);
    }
  }

  /** The window is a chronological stretch of a chronological history. */
  lemma WindowChronological(history: seq<MessageRow>)
    requires Chronological(history)
    ensures Chronological(Window(history))
  {
    SuffixChronological(history, |history| - |Window(history)|);
  }

  /** Every suffix of a chronological history is chronological. */
  lemma SuffixChronological(history: seq<MessageRow>, d: nat)
    requires Chronological(history) && d <= |history|
    ensures Chronological(history[d..])
  {
    var w := history[d..];
    forall i, j | 0 <= i < j < |w| ensures w[i].createdAt < w[j].createdAt {
      assert w[i] == history[d + i];
      assert w[j] == history[d + j];
    }
  }

  /**
   * The handler.  `body` is None when the request body is not JSON.  Refusals write nothing; otherwise the
   * user's message is the one row written, and the model receives the system prompt built from the latest
   * version followed by the last messages of the session, ending with the one just stored.
   */
  method Post(db: Db, token: Option<string>, body: Option<ChatRequest>,
              jwtVerify: (string, nat) -> Option<JwtPayload>, now: nat) returns (reply: ChatReply)
    requires db.Valid()
    modifies db
    ensures db.Valid()
    ensures var admitted := Admit(old(db.sessions), token, jwtVerify, now, body.Some?, SessionIdOf(body));
      && (admitted.Stop? ==> reply == Reply(admitted.response) && unchanged(db))
      && (admitted.Pass? ==>
        var sid := admitted.value;
        && reply.Streamed?
        && db.messages == old(db.messages) + [MessageRow(old(db.nextMessageId), sid, UserRole, body.value.message, old(db.clock))]
        && db.versions == old(db.versions) && db.users == old(db.users)
        && db.sessions == Touch(old(db.sessions), sid, old(db.clock) + 1)
        && reply.input == ModelInput(LatestVersion(db.versions, sid), MessagesOf(db.messages, sid)))
  {
    var admitted := Admit(db.sessions, token, jwtVerify, now, body.Some?, SessionIdOf(body));
    if admitted.Stop? {
      return Reply(admitted.response);
    }
    var input := StoreAndPrompt(db, admitted.value, body.value.message);
    reply := Streamed(input);
  }

  /** The body's sessionId, when the body was JSON at all. */
  function SessionIdOf(body: Option<ChatRequest>): Option<int> {
    if body.None? then None else body.value.sessionId
  }

  /** Lines 30-64 of the handler, once the checks have passed: store the user's message, then build the model input. */
  method StoreAndPrompt(db: Db, sid: int, message: string) returns (input: seq<PromptMessage>)
    requires db.Valid() && HasSession(db.sessions, sid)
    modifies db
    ensures db.Valid()
    ensures db.messages == old(db.messages) + [MessageRow(old(db.nextMessageId), sid, UserRole, message, old(db.clock))]
    ensures db.versions == old(db.versions) && db.users == old(db.users)
    ensures db.sessions == Touch(old(db.sessions), sid, old(db.clock) + 1)
    ensures input == ModelInput(LatestVersion(db.versions, sid), MessagesOf(db.messages, sid))
  {
    var stored := db.AddChatMessage(sid, UserRole, message);
    input := PrepareModelInput(db, sid);
  }

  /** Lines 33-64 of the handler: read the session's history and latest version, then build the model input. */
  method PrepareModelInput(db: Db, sid: int) returns (input: seq<PromptMessage>)
    requires db.Valid()
    ensures input == ModelInput(LatestVersion(db.versions, sid), MessagesOf(db.messages, sid))
  {
    var history := db.GetChatMessages(sid);
    var latest := db.GetLatestComponentVersion(sid);
    input := ModelInput(latest, history);
  }

  /**
   * The message the handler stores is read back as the newest of its session, so the model input ends with it,
   * as a user entry with the same text.
   */
  lemma PromptEndsWithUserMessage(messages: seq<MessageRow>, latest: Option<VersionRow>, m: MessageRow)
    requires forall i | 0 <= i < |messages| :: messages[i].createdAt < m.createdAt
    requires m.role == UserRole
    ensures var input := ModelInput(latest, MessagesOf(messages + [m], m.sessionId));
      input[|input| - 1] == PromptMessage(User, m.content)
  {
    AppendedMessageLast(messages, m, m.sessionId);
    var history := MessagesOf(messages + [m], m.sessionId);
    ModelInputShape(latest, history);
    var w := Window(history);
    assert w[|w| - 1] == history[|history| - 1];
  }
}
