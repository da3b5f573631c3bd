/**
 * The client logic of components/chat-interface.tsx: the mapping of stored messages into useChat's initial
 * messages, the reconciliation of a finished assistant reply (onFinish) and the form's submit handler.
 * JSON.parse is a parameter; the effects of onFinish (the callback and the POST) are returned as a list.
 */
module ChatInterface {
  import opened Common
  import opened Tables
  import opened ComponentsRoute

  // ---------------------------------------------------------------------------------------
  // id.toString()

  function DigitChar(d: nat): char
    requires d < 10
  {
    "0123456789"[d]
  }

  predicate IsDigit(c: char) {
    '0' <= c <= '9'
  }

  /** The decimal digits of a natural number, most significant first, without leading zeros. */
  function Digits(n: nat): (s: string)
    ensures |s| > 0 && forall k | 0 <= k < |s| :: IsDigit(s[k])
    ensures s[0] == '0' ==> n == 0 && s == "0"
    ensures n < 10 ==> |s| == 1
    decreases n
  {
    if n < 10 then [DigitChar(n)] else Digits(n / 10) + [DigitChar(n % 10)]
  }

  /** Number.prototype.toString() of an integer: a minus sign for negatives, then the digits. */
  function DecimalString(n: int): (r: string)
    ensures |r| > (if n < 0 then 1 else 0) && (r[0] == '-' <==> n < 0)
    ensures forall k | (if n < 0 then 1 else 0) <= k < |r| :: IsDigit(r[k])
    ensures n != 0 ==> r[if n < 0 then 1 else 0] != '0'
    ensures n == 0 ==> r == "0"
  {
    if n < 0 then "-" + Digits(-n) else Digits(n)
  }

  predicate AllDigits(s: string) {
    forall k | 0 <= k < |s| :: IsDigit(s[k])
  }

  /** The value of a run of decimal digits. */
  function DigitsValue(s: string): nat
    requires AllDigits(s)
  {
    if |s| == 0 then 0 else DigitsValue(s[..|s| - 1]) * 10 + (s[|s| - 1] - '0') as nat
  }

  /** Reading an integer back from a decimal string: an optional minus sign and at least one digit. */
  function ParseDecimal(s: string): Option<int> {
    if |s| > 1 && s[0] == '-' && AllDigits(s[1..]) then
      var magnitude: int := DigitsValue(s[1..]);
      Some(-magnitude)
    else if |s| > 0 && AllDigits(s) then Some(DigitsValue(s))
    else None
  }

  lemma {:induction false} DigitsRoundTrip(n: nat)
    ensures DigitsValue(Digits(n)) == n
    decreases n
  {
    if n >= 10 {
      var s := Digits(n);
      assert s[..|s| - 1] == Digits(n / 10);
      DigitsRoundTrip(n / 10);
    }
  }

  /** toString loses nothing: the decimal string reads back as the same integer. */
  lemma DecimalRoundTrip(n: int)
    ensures ParseDecimal(DecimalString(n)) == Some(n)
  {
    if n < 0 {
      var d := Digits(-n);
      var s := "-" + d;
      assert DecimalString(n) == s;
      assert s[1..] == d;
      assert AllDigits(d);
      DigitsRoundTrip(-n);
      var magnitude: int := DigitsValue(d);
      assert ParseDecimal(s) == Some(-magnitude);
    } else {
      var d := Digits(n);
      assert DecimalString(n) == d;
      assert d[0] != '-' by { assert IsDigit(d[0]); }
      assert AllDigits(d);
      DigitsRoundTrip(n);
      assert ParseDecimal(d) == Some(DigitsValue(d));
    }
  }

  // ---------------------------------------------------------------------------------------
  // initialMessages

  /** A chat message as the page hands it to the component. */
  datatype StoredMessage = StoredMessage(id: int, role: Role, content: string, createdAt: string)

  /** A message as useChat holds it. */
  datatype UiMessage = UiMessage(id: string, role: Role, content: string)

  function ToUiMessage(m: StoredMessage): (u: UiMessage)
    ensures u.role == m.role && u.content == m.content
    ensures u.id == DecimalString(m.id) && ParseDecimal(u.id) == Some(m.id)
  {
    DecimalRoundTrip(m.id);
    UiMessage(DecimalString(m.id), m.role, m.content)
  }

  /** initialMessages.map: same order, role and content; each id becomes its decimal string, which reads back as that id. */
  function InitialMessages(stored: seq<StoredMessage>): (r: seq<UiMessage>)
    ensures |r| == |stored|
    ensures forall k | 0 <= k < |r| :: r[k].role == stored[k].role && r[k].content == stored[k].content
    ensures forall k | 0 <= k < |r| :: r[k].id == DecimalString(stored[k].id)
    ensures forall k | 0 <= k < |r| :: ParseDecimal(r[k].id) == Some(stored[k].id)
  {
    seq(|stored|, k requires 0 <= k < |stored| => ToUiMessage(stored[k]))
  }

  /** Messages with different ids keep different string ids, so they stay distinguishable in useChat. */
  lemma DistinctIdsStayDistinct(stored: seq<StoredMessage>, i: nat, j: nat)
    requires i < |stored| && j < |stored| && stored[i].id != stored[j].id
    ensures InitialMessages(stored)[i].id != InitialMessages(stored)[j].id
  {
    var r := InitialMessages(stored);
    assert ParseDecimal(r[i].id) != ParseDecimal(r[j].id);
  }

  // ---------------------------------------------------------------------------------------
  // onFinish

  /** The first index of `c` in `s`. */
  function FirstIndex(s: string, c: char): (r: Option<nat>)
    ensures r.None? <==> forall k | 0 <= k < |s| :: s[k] != c
    ensures r.Some? ==> r.value < |s| && s[r.value] == c && forall k | 0 <= k < r.value :: s[k] != c
  {
    if |s| == 0 then None
    else if s[0] == c then Some(0)
    else
      var r := FirstIndex(s[1..], c);
      if r.None? then None else Some(r.value + 1)
  }

  /** The last index of `c` in `s`. */
  function LastIndex(s: string, c: char): (r: Option<nat>)
    ensures r.None? <==> forall k | 0 <= k < |s| :: s[k] != c
    ensures r.Some? ==> r.value < |s| && s[r.value] == c && forall k | r.value < k < |s| :: s[k] != c
  {
    if |s| == 0 then None
    else if s[|s| - 1] == c then Some(|s| - 1)
    else LastIndex(s[..|s| - 1], c)
  }

  /**
   * content.match(/\{[\s\S]*\}/): the leftmost `{` that has a `}` after it, through the last `}` (greedy).
   * The result is the inclusive span (start, end).
   */
  function JsonSpan(content: string): (r: Option<(nat, nat)>)
    ensures r.None? <==> forall i, j | 0 <= i < j < |content| :: !(content[i] == '{' && content[j] == '}')
    ensures r.Some? ==>
      var (i, j) := r.value;
      && i < j < |content| && content[i] == '{' && content[j] == '}'
      && (forall k | 0 <= k < i :: content[k] != '{')
      && (forall k | j < k < |content| :: content[k] != '}')
  {
    match FirstIndex(content, '{')
    case None => None
    case Some(i) =>
      match LastIndex(content, '}')
      case None => None
      case Some(j) => if i < j then Some((i, j)) else None
  }

  /** jsonMatch[0], when there is a match. */
  function JsonMatch(content: string): (r: Option<string>)
    ensures r.None? <==> forall i, j | 0 <= i < j < |content| :: !(content[i] == '{' && content[j] == '}')
    ensures r.Some? ==> |r.value| >= 2 && r.value[0] == '{' && r.value[|r.value| - 1] == '}'
    ensures r.Some? ==> exists i ::
      && OccursAt(r.value, content, i)
      && (forall k | 0 <= k < i :: content[k] != '{')
      && (forall k | i + |r.value| <= k < |content| :: content[k] != '}')
  {
    match JsonSpan(content)
    case None => None
    case Some((i, j)) =>
      var m := content[i..j + 1];
      assert OccursAt(m, content, i);
      Some(m)
  }

  /** What JSON.parse yields that onFinish looks at; a failed parse is None (the throw the catch swallows). */
  datatype Parsed = Parsed(jsx: Option<string>, css: Option<string>)

  /** An effect of onFinish, in the order it happens. */
  datatype Effect =
    | ComponentGenerated(jsx: string, css: string)
    | SaveComponent(request: SaveRequest)

  /**
   * onFinish: no match, a parse failure or a falsy jsx give no effect; otherwise the callback fires, then the
   * POST to /api/protected/components carries the same jsx and css (css defaulted to "").  The POST's outcome
   * is not looked at, and any failure is caught, so nothing follows it.
   */
  function OnFinish(content: string, parse: string -> Option<Parsed>, sessionId: int): (r: seq<Effect>)
    ensures r == [] <==>
      JsonMatch(content).None? || parse(JsonMatch(content).value).None? || Falsy(parse(JsonMatch(content).value).value.jsx)
    ensures r != [] ==>
      var parsed := parse(JsonMatch(content).value).value;
      && |r| == 2 && r[0].ComponentGenerated? && r[1].SaveComponent?
      && r[0].jsx == parsed.jsx.value && r[0].css == OrEmpty(parsed.css)
      && r[1].request.sessionId == Some(sessionId)
      && r[1].request.jsxCode == Some(r[0].jsx) && r[1].request.cssCode == Some(r[0].css)
  {
    match JsonMatch(content)
    case None => []
    case Some(text) =>
      match parse(text)
      case None => []
      case Some(parsed) =>
        if Falsy(parsed.jsx) then []
        else
          var jsx, css := parsed.jsx.value, OrEmpty(parsed.css);
          [ComponentGenerated(jsx, css), SaveComponent(SaveRequest(Some(sessionId), Some(jsx), Some(css)))]
  }

  // ---------------------------------------------------------------------------------------
  // onSubmit

  /** String.prototype.trim's white space: WhiteSpace and LineTerminator of ECMAScript. */
  predicate IsJsWhiteSpace(c: char) {
    || c == '\t' || c == '\n' || c == '\U{B}' || c == '\U{C}' || c == '\r' || c == ' '
    || c == '\U{A0}' || c == '\U{1680}' || ('\U{2000}' <= c <= '\U{200A}') || c == '\U{2028}' || c == '\U{2029}'
    || c == '\U{202F}' || c == '\U{205F}' || c == '\U{3000}' || c == '\U{FEFF}'
  }

  function TrimStart(s: string): (r: string)
    ensures |r| <= |s| && r == s[|s| - |r|..]
    ensures forall k | 0 <= k < |s| - |r| :: IsJsWhiteSpace(s[k])
    ensures r != [] ==> !IsJsWhiteSpace(r[0])
  {
    if |s| > 0 && IsJsWhiteSpace(s[0]) then TrimStart(s[1..]) else s
  }

  function TrimEnd(s: string): (r: string)
    ensures |r| <= |s| && r == s[..|r|]
    ensures forall k | |r| <= k < |s| :: IsJsWhiteSpace(s[k])
    ensures r != [] ==> !IsJsWhiteSpace(r[|r| - 1])
  {
    if |s| > 0 && IsJsWhiteSpace(s[|s| - 1]) then TrimEnd(s[..|s| - 1]) else s
  }

  /** input.trim(): the stretch of `s` between its leading and its trailing white space. */
  function Trim(s: string): (r: string)
    ensures exists i ::
      && OccursAt(r, s, i)
      && (forall k | 0 <= k < i :: IsJsWhiteSpace(s[k]))
      && (forall k | i + |r| <= k < |s| :: IsJsWhiteSpace(s[k]))
    ensures r != [] ==> !IsJsWhiteSpace(r[0]) && !IsJsWhiteSpace(r[|r| - 1])
  {
    TrimIsSlice(s);
    TrimEnd(TrimStart(s))
  }

  /** What TrimEnd keeps of TrimStart's result sits in `s` right after the leading white space. */
  lemma TrimIsSlice(s: string)
    ensures var t := TrimStart(s); var r := TrimEnd(t); var i := |s| - |t|;
      && OccursAt(r, s, i)
      && (forall k | 0 <= k < i :: IsJsWhiteSpace(s[k]))
      && (forall k | i + |r| <= k < |s| :: IsJsWhiteSpace(s[k]))
  {
    var t := TrimStart(s);
    var r := TrimEnd(t);
    var i := |s| - |t|;
    PrefixOfSuffix(s, i, |r|);
    forall k | i + |r| <= k < |s| ensures IsJsWhiteSpace(s[k]) {
      assert s[k] == t[k - i];
    }
  }

  /** A prefix of a suffix of `s` is the slice of `s` it came from, and the suffix's later characters are those of `s`. */
  lemma PrefixOfSuffix(s: string, i: nat, n: nat)
    requires i + n <= |s|
    ensures OccursAt(s[i..][..n], s, i)
    ensures forall k | i <= k < |s| :: s[i..][k - i] == s[k]
  {
  }

  /** `!input.trim()` holds exactly when the input is empty or all white space. */
  lemma TrimEmptyIffBlank(s: string)
    ensures Trim(s) == "" <==> forall k | 0 <= k < |s| :: IsJsWhiteSpace(s[k])
  {
    var t := TrimStart(s);
    if t != [] {
      assert t[0] == s[|s| - |t|];
      assert TrimEnd(t) != "";
    }
  }

  /**
   * The form state of the component: its own `input` (bound to the text field), useChat's internal input
   * (which this component never writes), useChat's loading flag, and the user texts useChat has posted.
   */
  class ChatBox {
    var input: string
    var chatInput: string
    var isLoading: bool
    var posted: seq<string>

    /** As written, the component never binds or writes useChat's input, so between submits it stays empty. */
    ghost predicate Valid()
      reads this
    {
      chatInput == ""
    }

    constructor(isLoading: bool)
      ensures Valid()
      ensures input == "" && this.isLoading == isLoading && posted == []
    {
      input, chatInput, this.isLoading, posted := "", "", isLoading, [];
    }

    /** The text field's onChange: setInput(e.target.value). */
    method Type(text: string)
      requires Valid()
      modifies this
      ensures Valid()
      ensures input == text && isLoading == old(isLoading) && posted == old(posted)
    {
      input := text;
    }

    /** useChat's handleSubmit: posts useChat's own input unless it is empty, then clears it. */
    method HandleSubmit()
      modifies this
      ensures old(chatInput) == "" ==> unchanged(this)
      ensures old(chatInput) != "" ==> posted == old(posted) + [old(chatInput)] && chatInput == ""
      ensures input == old(input) && isLoading == old(isLoading)
    {
      if chatInput != "" {
        posted, chatInput := posted + [chatInput], "";
      }
    }

    /**
     * onSubmit as written: the guard reads the component's `input`, but handleSubmit posts useChat's input,
     * which is always empty here.  Whatever was typed is cleared and never posted.
     */
    method OnSubmitAsWritten()
      requires Valid()
      modifies this
      ensures Valid()
      ensures posted == old(posted) && isLoading == old(isLoading)
      ensures Trim(old(input)) == "" || old(isLoading) ==> input == old(input)
      ensures Trim(old(input)) != "" && !old(isLoading) ==> input == ""
    {
      if Trim(input) == "" || isLoading {
        return;
      }
      HandleSubmit();
      input := "";
    }

    /**
     * onSubmit as intended: the same guard (blank input or a pending request does nothing), then the typed
     * text is posted and the field cleared.
     */
    method OnSubmit()
      requires Valid()
      modifies this
      ensures Valid()
      ensures isLoading == old(isLoading)
      ensures Trim(old(input)) == "" || old(isLoading) ==> input == old(input) && posted == old(posted)
      ensures Trim(old(input)) != "" && !old(isLoading) ==> input == "" && posted == old(posted) + [old(input)]
    {
      if Trim(input) == "" || isLoading {
        return;
      }
      chatInput := input;
      HandleSubmit();
      input := "";
    }
  }

  /** The request typed in both scenarios below is not blank. */
  lemma RequestNotBlank()
    ensures Trim("make a button") != ""
  {
    TrimEmptyIffBlank("make a button");
    assert !IsJsWhiteSpace("make a button"[0]);
  }

  /** As written: typing "make a button" and submitting clears the field and posts nothing. */
  method TypedRequestIsLost() returns (typed: string, field: string, posted: seq<string>)
    ensures typed == "make a button" && field == "" && posted == []
  {
    var box := new ChatBox(false);
    box.Type("make a button");
    typed := box.input;
    RequestNotBlank();
    box.OnSubmitAsWritten();
    field, posted := box.input, box.posted;
  }

  /** As intended: the same keystrokes post "make a button" and clear the field. */
  method TypedRequestIsPosted() returns (typed: string, field: string, posted: seq<string>)
    ensures typed == "make a button" && field == "" && posted == ["make a button"]
  {
    var box := new ChatBox(false);
    box.Type("make a button");
    typed := box.input;
    RequestNotBlank();
    box.OnSubmit();
    assert box.posted == [] + [typed];
    field, posted := box.input, box.posted;
  }
}
