/**
 * KeywordQueryEventListener.on_event (main.py:43-184): what the launcher
 * shows for a query, as a function of the launcher's preferences, the typed
 * argument and the outcome of the chat-completion request.
 *
 * The host framework, the network and JSON are abstracted: preferences are
 * given already looked up and parsed (or failed to parse), the HTTP call is
 * an outcome passed in, and the decoded response is a `ResponseData`. The
 * result is the request that would be sent (if any) and the ordered list of
 * result items.
 */
module KeywordQuery {
  import opened Wrappers
  import opened Strings
  import opened Wrapping

  const ExtensionIcon: string := "images/icon.png"
  const Endpoint: string := "https://api.x.ai/v1/chat/completions"
  const UnknownError: string := "Unknown error, please check logs for more info"
  /** `str(err)` for the `KeyError` that `preferences['api_key']` raises when the key is missing. */
  const MissingApiKey: string := "'api_key'"

  const DefaultMaxTokens: int := 100
  const DefaultFrequencyPenalty: real := 0.0
  const DefaultPresencePenalty: real := 0.0
  const DefaultTemperature: real := 0.7
  const DefaultTopP: real := 1.0
  const DefaultSystemPrompt: string := "You are Grok, created by xAI."
  const DefaultLineWrap: int := 80
  const DefaultModel: string := "grok-3-beta"

  // ---------------------------------------------------------------------
  // Result items

  datatype Action = CopyToClipboard(text: string) | DoNothing

  /** An `ExtensionResultItem`; `description` is `None` where the source passes none. */
  datatype Item = Item(icon: string, name: string, description: Option<string>, onEnter: Action)

  /** An item reporting an error: its name carries the error, and Enter copies the error text. */
  function ErrorItem(prefix: string, err: string): Item
  {
    Item(ExtensionIcon, prefix + err, None, CopyToClipboard(err))
  }

  /** An item that only informs, and does nothing on Enter. */
  function NoticeItem(name: string): Item
  {
    Item(ExtensionIcon, name, None, DoNothing)
  }

  /** The item for one answer: its text, wrapped, is both the description and what Enter copies. */
  function ResponseItem(wrapped: string): Item
  {
    Item(ExtensionIcon, "Grok Response", Some(wrapped), CopyToClipboard(wrapped))
  }

  // ---------------------------------------------------------------------
  // Preferences (main.py:48-64)

  /**
   * A preference read with `.get(key, default)` and converted with `int()`
   * or `float()`: absent (the default is used) or present, in which case the
   * conversion gives a value or fails with the text of its exception.
   */
  datatype Pref<T> = Absent | Present(parsed: Result<T, string>)

  datatype Preferences = Preferences(
    apiKey: Option<string>,
    maxTokens: Pref<int>,
    frequencyPenalty: Pref<real>,
    presencePenalty: Pref<real>,
    temperature: Pref<real>,
    topP: Pref<real>,
    systemPrompt: Option<string>,
    lineWrap: Pref<int>,
    model: Option<string>)

  datatype Config = Config(
    apiKey: string,
    maxTokens: int,
    frequencyPenalty: real,
    presencePenalty: real,
    temperature: real,
    topP: real,
    systemPrompt: string,
    lineWrap: int,
    model: string)

  /** `int(preferences.get(key, default))` or `float(...)`. */
  function Converted<T>(p: Pref<T>, default: T): Result<T, string>
  {
    match p
    case Absent => Success(default)
    case Present(parsed) => parsed
  }

  /** `preferences.get(key, default)` for a preference used as a string. */
  function OrDefault(p: Option<string>, default: string): string
  {
    if p.Some? then p.value else default
  }

  /** The conversion error of one preference, if it has one. */
  function ConversionErrors<T>(p: Pref<T>): seq<string>
  {
    if p.Present? && p.parsed.Failure? then [p.parsed.error] else []
  }

  /**
   * Every error that reading the preferences can meet, in the order the
   * source reads them: a missing API key, then the failed conversions.
   */
  function PreferenceErrors(p: Preferences): (errs: seq<string>)
    ensures p.apiKey.None? ==> errs != [] && errs[0] == MissingApiKey
    ensures errs == [] <==>
      && p.apiKey.Some?
      && Converted(p.maxTokens, DefaultMaxTokens).Success?
      && Converted(p.frequencyPenalty, DefaultFrequencyPenalty).Success?
      && Converted(p.presencePenalty, DefaultPresencePenalty).Success?
      && Converted(p.temperature, DefaultTemperature).Success?
      && Converted(p.topP, DefaultTopP).Success?
      && Converted(p.lineWrap, DefaultLineWrap).Success?
  {
    (if p.apiKey.None? then [MissingApiKey] else [])
    + ConversionErrors(p.maxTokens)
    + ConversionErrors(p.frequencyPenalty)
    + ConversionErrors(p.presencePenalty)
    + ConversionErrors(p.temperature)
    + ConversionErrors(p.topP)
    + ConversionErrors(p.lineWrap)
  }

  /**
   * The try block of main.py:48-57: the preferences are read in order and
   * the first exception ends the reading.
   */
  function LoadConfig(p: Preferences): (r: Result<Config, string>)
    ensures r.Failure? <==> PreferenceErrors(p) != []
    ensures r.Failure? ==> r.error == PreferenceErrors(p)[0]
    ensures r.Success? ==>
      && Some(r.value.apiKey) == p.apiKey
      && Success(r.value.maxTokens) == Converted(p.maxTokens, DefaultMaxTokens)
      && Success(r.value.frequencyPenalty) == Converted(p.frequencyPenalty, DefaultFrequencyPenalty)
      && Success(r.value.presencePenalty) == Converted(p.presencePenalty, DefaultPresencePenalty)
      && Success(r.value.temperature) == Converted(p.temperature, DefaultTemperature)
      && Success(r.value.topP) == Converted(p.topP, DefaultTopP)
      && r.value.systemPrompt == OrDefault(p.systemPrompt, DefaultSystemPrompt)
      && Success(r.value.lineWrap) == Converted(p.lineWrap, DefaultLineWrap)
      && r.value.model == OrDefault(p.model, DefaultModel)
  {
    if p.apiKey.None? then Failure(MissingApiKey)
    else
      var maxTokens :- Converted(p.maxTokens, DefaultMaxTokens);
      var frequencyPenalty :- Converted(p.frequencyPenalty, DefaultFrequencyPenalty);
      var presencePenalty :- Converted(p.presencePenalty, DefaultPresencePenalty);
      var temperature :- Converted(p.temperature, DefaultTemperature);
      var topP :- Converted(p.topP, DefaultTopP);
      var systemPrompt := OrDefault(p.systemPrompt, DefaultSystemPrompt);
      var lineWrap :- Converted(p.lineWrap, DefaultLineWrap);
      var model := OrDefault(p.model, DefaultModel);
      Success(Config(p.apiKey.value, maxTokens, frequencyPenalty, presencePenalty,
                     temperature, topP, systemPrompt, lineWrap, model))
  }

  /** With only the API key set, every other preference takes the source's default. */
  lemma DefaultConfig(key: string)
    ensures var p := Preferences(Some(key), Absent, Absent, Absent, Absent, Absent, None, Absent, None);
      LoadConfig(p) == Success(Config(key, 100, 0.0, 0.0, 0.7, 1.0, "You are Grok, created by xAI.", 80, "grok-3-beta"))
  {
  }

  // ---------------------------------------------------------------------
  // The request (main.py:79-101)

  datatype Message = Message(role: string, content: string)

  datatype RequestBody = RequestBody(
    model: string,
    messages: seq<Message>,
    temperature: real,
    maxTokens: int,
    topP: real,
    frequencyPenalty: real,
    presencePenalty: real)

  datatype Header = Header(name: string, value: string)

  datatype Request = Request(endpoint: string, headers: seq<Header>, body: RequestBody)

  /** The value of the first header called `name`. */
  function HeaderValue(headers: seq<Header>, name: string): (v: Option<string>)
    ensures v.None? <==> NoneNamed(headers, name)
    ensures v.Some? ==> exists i :: 0 <= i < |headers| && headers[i] == Header(name, v.value) && NoneNamed(headers[..i], name)
  {
    if headers == [] then None
    else if headers[0].name == name then
      assert NoneNamed(headers[..0], name);
      Some(headers[0].value)
    else
      var v := HeaderValue(headers[1..], name);
      assert v.Some? ==> exists i :: (0 <= i < |headers[1..]| && headers[1..][i] == Header(name, v.value)
        && NoneNamed(headers[1..][..i], name) && headers[..i + 1] == [headers[0]] + headers[1..][..i]);
      v
  }

  /** No header of `headers` is called `name`. */
  predicate NoneNamed(headers: seq<Header>, name: string)
  {
    forall j :: 0 <= j < |headers| ==> headers[j].name != name
  }

  /** The POST request the source sends for `query`: a system message, then the user's message, with a bearer token. */
  function BuildRequest(config: Config, query: string): (r: Request)
    ensures r.endpoint == Endpoint
    ensures |r.headers| == 2
    ensures HeaderValue(r.headers, "Authorization") == Some("Bearer " + config.apiKey)
    ensures HeaderValue(r.headers, "Content-Type") == Some("application/json")
    ensures r.body.messages == [Message("system", config.systemPrompt), Message("user", query)]
    ensures r.body.model == config.model && r.body.maxTokens == config.maxTokens
    ensures r.body.temperature == config.temperature && r.body.topP == config.topP
    ensures r.body.frequencyPenalty == config.frequencyPenalty && r.body.presencePenalty == config.presencePenalty
  {
    Request(
      Endpoint,
      [Header("Content-Type", "application/json"), Header("Authorization", "Bearer " + config.apiKey)],
      RequestBody(
        config.model,
        [Message("system", config.systemPrompt), Message("user", query)],
        config.temperature, config.maxTokens, config.topP,
        config.frequencyPenalty, config.presencePenalty))
  }

  // ---------------------------------------------------------------------
  // The response (main.py:108-146)

  /**
   * One element of `choices`, as the loop at main.py:150-160 sees it.
   * `Text(c)`: a dict whose `message` is a dict and whose `content` is the
   * string `c`; a missing or falsy `message` content reads as `Text("")`.
   * `Broken(err)`: an element on which the loop raises (an element or a
   * `message` that is not a dict, or a truthy `content` that is not a
   * string), with the text of the exception.
   */
  datatype Choice = Text(content: string) | Broken(error: string)

  /**
   * The `choices` member of a decoded response object. `Listed(cs)` is a
   * list; `Listed([])` also stands for a missing or falsy `choices`, which
   * the source treats alike. `Uniterable(err)` is a truthy value that is
   * not a list (a number, a string, an object): iterating it, or calling
   * `.get` on its first element, raises `err`.
   */
  datatype ChoicesField = Listed(choices: seq<Choice>) | Uniterable(error: string)

  /**
   * The outcome of `response.json()`: it raises (`Unparsable`), gives a
   * JSON value that is not an object (`NotAnObject`), or gives an object
   * with its `choices` and, where `error.message` is a string, that message.
   */
  datatype ResponseData = Unparsable | NotAnObject | Object(choices: ChoicesField, errorMessage: Option<string>)

  /** The outcome of `requests.post(...)` followed by `raise_for_status()`. */
  datatype HttpOutcome = RequestFailed(error: string) | Succeeded(data: ResponseData)

  /**
   * The message of main.py:137-141: `response_data.get('error', {}).get('message', err_msg)`,
   * or the fixed text when that raises. When `response.json()` raised,
   * `response_data` is unbound and the lookup raises; when the value is not
   * an object, `.get` raises.
   */
  function ErrorMessage(data: ResponseData): string
  {
    match data
    case Unparsable => UnknownError
    case NotAnObject => UnknownError
    case Object(_, errorMessage) => OrDefault(errorMessage, UnknownError)
  }

  /** What the parsing block decides: a failure with its message, no choices, or choices to process. */
  datatype Parsed = ParseFailed(message: string) | NoChoices | ToProcess(choices: ChoicesField)

  /**
   * The parsing block of main.py:125-146. The extraction of `error.message`
   * can never produce a message: the except branch is only reached when the
   * response is not an object, and then the lookup raises as well. A parse
   * failure always shows the fixed text.
   */
  function ParseResponse(data: ResponseData): (r: Parsed)
    ensures r.ParseFailed? <==> !data.Object?
    ensures r.ParseFailed? ==> r.message == UnknownError
  {
    match data
    case Object(choices, _) => if choices == Listed([]) then NoChoices else ToProcess(choices)
    case _ => ParseFailed(ErrorMessage(data))
  }

  // ---------------------------------------------------------------------
  // The choices loop (main.py:148-167)

  /** The non-empty contents among `choices`, in order: the ones that pass `if not message: continue`. */
  function Contents(choices: seq<Choice>): (cs: seq<string>)
    ensures |cs| <= |choices|
    ensures forall k :: 0 <= k < |cs| ==> cs[k] != ""
  {
    if choices == [] then []
    else
      var front, last := Contents(choices[..|choices| - 1]), choices[|choices| - 1];
      if last.Text? && last.content != "" then front + [last.content] else front
  }

  /** Whether no choice makes the loop raise. */
  predicate Intact(choices: seq<Choice>)
  {
    forall i :: 0 <= i < |choices| ==> choices[i].Text?
  }

  /**
   * The loop of main.py:150-160 as a filter-map: it skips empty contents,
   * wraps the others into items, and stops at the first choice that raises.
   */
  function ChoiceItems(choices: seq<Choice>, lineWrap: int): (r: Result<seq<Item>, string>)
    ensures r.Success? ==> |r.value| <= |choices|
  {
    if choices == [] then Success([])
    else
      var items :- ChoiceItems(choices[..|choices| - 1], lineWrap);
      match choices[|choices| - 1]
      case Broken(err) => Failure(err)
      case Text(content) =>
        if content == "" then Success(items) else Success(items + [ResponseItem(Wrap(content, lineWrap))])
  }

  /** The loop succeeds exactly when no choice raises. */
  lemma {:induction false} ChoiceItemsSucceed(choices: seq<Choice>, lineWrap: int)
    ensures ChoiceItems(choices, lineWrap).Success? <==> Intact(choices)
  {
    if choices != [] {
      var front := choices[..|choices| - 1];
      ChoiceItemsSucceed(front, lineWrap);
      assert forall i :: 0 <= i < |front| ==> front[i] == choices[i];
    }
  }

  /**
   * A loop that succeeds gives one item per non-empty content, in order,
   * whose description and copied text are that content wrapped to `lineWrap`.
   */
  lemma {:induction false} ChoiceItemsContents(choices: seq<Choice>, lineWrap: int)
    ensures var r, cs := ChoiceItems(choices, lineWrap), Contents(choices);
      r.Success? ==>
        && |r.value| == |cs| <= |choices|
        && forall k :: 0 <= k < |cs| ==> r.value[k] == ResponseItem(Wrap(cs[k], lineWrap))
  {
    if choices != [] {
      var front := choices[..|choices| - 1];
      ChoiceItemsContents(front, lineWrap);
    }
  }

  /** On failure the loop reports the error of the first choice that raises. */
  lemma {:induction false} ChoiceItemsFail(choices: seq<Choice>, lineWrap: int)
    ensures var r := ChoiceItems(choices, lineWrap);
      r.Failure? ==> exists i :: 0 <= i < |choices| && Intact(choices[..i]) && choices[i] == Broken(r.error)
  {
    if choices != [] {
      var n := |choices|;
      var front := choices[..n - 1];
      ChoiceItemsFail(front, lineWrap);
      var r := ChoiceItems(choices, lineWrap);
      if ChoiceItems(front, lineWrap).Failure? {
        var i :| 0 <= i < |front| && Intact(front[..i]) && front[i] == Broken(ChoiceItems(front, lineWrap).error);
        assert front[..i] == choices[..i];
      } else if r.Failure? {
        ChoiceItemsSucceed(front, lineWrap);
        assert choices[..n - 1] == front;
      }
    }
  }

  /** The loop of main.py:149-160, appending to `items` and leaving it at the first exception. */
  method CollectItems(choices: seq<Choice>, lineWrap: int) returns (r: Result<seq<Item>, string>)
    ensures r == ChoiceItems(choices, lineWrap)
  {
    var items: seq<Item> := [];
    for i := 0 to |choices|
      invariant ChoiceItems(choices[..i], lineWrap) == Success(items)
    {
      assert choices[..i + 1][..i] == choices[..i];
      match choices[i]
      case Broken(err) =>
        ChoiceItemsStop(choices, i, lineWrap);
        return Failure(err);
      case Text(content) =>
        if content != "" {
          var message := WrapText(content, lineWrap);
          items := items + [ResponseItem(message)];
        }
    }
    assert choices[..|choices|] == choices;
    r := Success(items);
  }

  /** Once a choice raises, the loop's outcome is that failure, whatever follows. */
  lemma {:induction false} ChoiceItemsStop(choices: seq<Choice>, i: nat, lineWrap: int)
    requires i < |choices| && choices[i].Broken? && ChoiceItems(choices[..i], lineWrap).Success?
    ensures ChoiceItems(choices, lineWrap) == Failure(choices[i].error)
    decreases |choices|
  {
    if i < |choices| - 1 {
      var front := choices[..|choices| - 1];
      assert front[..i] == choices[..i] && front[i] == choices[i];
      ChoiceItemsStop(front, i, lineWrap);
    } else {
      assert choices[..|choices| - 1] == choices[..i];
    }
  }

  /** The block of main.py:148-175: the loop's items, or the single item that replaces them. */
  function ResponseItems(field: ChoicesField, lineWrap: int): (items: seq<Item>)
    ensures |items| >= 1
    ensures field.Uniterable? ==> |items| == 1
  {
    match field
    case Uniterable(err) => [ErrorItem("Failed to process response: ", err)]
    case Listed(choices) =>
      match ChoiceItems(choices, lineWrap)
      case Failure(err) => [ErrorItem("Failed to process response: ", err)]
      case Success(items) => if items == [] then [NoticeItem("No valid response from Grok")] else items
  }

  /** The items once the request has been sent (main.py:107-184). */
  function Respond(http: HttpOutcome, lineWrap: int): (items: seq<Item>)
    ensures |items| >= 1
    ensures !(http.Succeeded? && http.data.Object? && http.data.choices.Listed?) ==> |items| == 1
  {
    match http
    case RequestFailed(err) => [ErrorItem("Request failed: ", err)]
    case Succeeded(data) =>
      match ParseResponse(data)
      case ParseFailed(message) => [ErrorItem("Failed to parse response: ", message)]
      case NoChoices => [NoticeItem("No response from Grok")]
      case ToProcess(field) => ResponseItems(field, lineWrap)
  }

  // ---------------------------------------------------------------------
  // on_event

  /** What on_event produces: the request it sends, if any, and the items it renders. */
  datatype Handled = Handled(sent: Option<Request>, items: seq<Item>)

  /** Whether the argument is falsy for `not search_term`: missing or empty. */
  predicate Blank(argument: Option<string>)
  {
    argument.None? || argument.value == ""
  }

  /**
   * on_event: read the preferences, check the argument, send the request
   * and render its outcome. `http` is the outcome of sending the request;
   * it is consulted only when a request is sent.
   */
  function OnEvent(prefs: Preferences, argument: Option<string>, http: HttpOutcome): (h: Handled)
    ensures |h.items| >= 1
    ensures h.sent.Some? <==> PreferenceErrors(prefs) == [] && !Blank(argument)
  {
    match LoadConfig(prefs)
    case Failure(err) => Handled(None, [ErrorItem("Failed to parse preferences: ", err)])
    case Success(config) =>
      if Blank(argument) then Handled(None, [NoticeItem("Type in a prompt...")])
      else Handled(Some(BuildRequest(config, argument.value)), Respond(http, config.lineWrap))
  }

  // ---------------------------------------------------------------------
  // What on_event renders

  /** The preferences are read before the argument is looked at: any preference error gives one item copying the first error. */
  lemma PreferencesCheckedFirst(prefs: Preferences, argument: Option<string>, http: HttpOutcome)
    requires PreferenceErrors(prefs) != []
    ensures var err := PreferenceErrors(prefs)[0];
      OnEvent(prefs, argument, http) ==
        Handled(None, [Item(ExtensionIcon, "Failed to parse preferences: " + err, None, CopyToClipboard(err))])
  {
  }

  /** Without an argument, or with an empty one, on_event shows one placeholder item and sends nothing. */
  lemma BlankArgumentPrompts(prefs: Preferences, argument: Option<string>, http: HttpOutcome)
    requires PreferenceErrors(prefs) == [] && Blank(argument)
    ensures OnEvent(prefs, argument, http) == Handled(None, [Item(ExtensionIcon, "Type in a prompt...", None, DoNothing)])
  {
  }

  /** A prompt of only whitespace is not blank for `not search_term`, so it is sent. */
  lemma WhitespacePromptIsSent(prefs: Preferences, http: HttpOutcome)
    requires PreferenceErrors(prefs) == []
    ensures OnEvent(prefs, Some(" "), http).sent.Some?
  {
  }

  /**
   * A query is sent to the endpoint as a system message with the system
   * prompt followed by a user message with the query, authorised by the
   * API key as a bearer token; what is shown is the outcome of that request.
   */
  lemma QuerySent(prefs: Preferences, query: string, http: HttpOutcome)
    requires PreferenceErrors(prefs) == [] && query != ""
    ensures var h := OnEvent(prefs, Some(query), http);
      && h.sent.Some?
      && h.sent.value.endpoint == Endpoint
      && h.sent.value.body.messages ==
           [Message("system", OrDefault(prefs.systemPrompt, DefaultSystemPrompt)), Message("user", query)]
      && HeaderValue(h.sent.value.headers, "Authorization") == Some("Bearer " + prefs.apiKey.value)
      && h.items == Respond(http, LoadConfig(prefs).value.lineWrap)
  {
  }

  /** When nothing is sent, the outcome of a request plays no part. */
  lemma UnsentIgnoresOutcome(prefs: Preferences, argument: Option<string>, http1: HttpOutcome, http2: HttpOutcome)
    requires OnEvent(prefs, argument, http1).sent.None?
    ensures OnEvent(prefs, argument, http1) == OnEvent(prefs, argument, http2)
  {
  }

  /**
   * The outcomes that end with a single item: a failed request copies its
   * error; a response that does not decode to an object copies the fixed
   * unknown-error text; an object without choices says so; a `choices`
   * that cannot be iterated copies the error raised.
   */
  lemma SingleItemOutcomes(http: HttpOutcome, lineWrap: int)
    ensures http.RequestFailed? ==>
      Respond(http, lineWrap) == [Item(ExtensionIcon, "Request failed: " + http.error, None, CopyToClipboard(http.error))]
    ensures http.Succeeded? && !http.data.Object? ==>
      Respond(http, lineWrap) ==
        [Item(ExtensionIcon, "Failed to parse response: " + UnknownError, None, CopyToClipboard(UnknownError))]
    ensures http.Succeeded? && http.data.Object? && http.data.choices == Listed([]) ==>
      Respond(http, lineWrap) == [Item(ExtensionIcon, "No response from Grok", None, DoNothing)]
    ensures http.Succeeded? && http.data.Object? && http.data.choices.Uniterable? ==>
      var err := http.data.choices.error;
      Respond(http, lineWrap) == [Item(ExtensionIcon, "Failed to process response: " + err, None, CopyToClipboard(err))]
  {
  }

  /** The `error.message` of a response never changes what is shown. */
  lemma ErrorMessageIgnored(choices: ChoicesField, m1: Option<string>, m2: Option<string>, lineWrap: int)
    ensures Respond(Succeeded(Object(choices, m1)), lineWrap) == Respond(Succeeded(Object(choices, m2)), lineWrap)
  {
  }

  /**
   * For a non-empty list of choices: if one raises, a single item copies
   * the error of the first that does; otherwise there is one item per
   * non-empty content, in order, with the content wrapped to `lineWrap` as
   * both description and copied text, at most one per choice; and when all
   * contents are empty a single notice replaces them.
   */
  lemma AnswersShown(choices: seq<Choice>, m: Option<string>, lineWrap: int)
    requires choices != []
    ensures var items, cs := Respond(Succeeded(Object(Listed(choices), m)), lineWrap), Contents(choices);
      && (!Intact(choices) ==>
            exists i :: 0 <= i < |choices| && Intact(choices[..i]) && choices[i].Broken?
              && items == [Item(ExtensionIcon, "Failed to process response: " + choices[i].error, None,
                                CopyToClipboard(choices[i].error))])
      && (Intact(choices) && cs == [] ==>
            items == [Item(ExtensionIcon, "No valid response from Grok", None, DoNothing)])
      && (Intact(choices) && cs != [] ==>
            && |items| == |cs| <= |choices|
            && forall k :: 0 <= k < |cs| ==>
                 items[k] == Item(ExtensionIcon, "Grok Response", Some(Wrap(cs[k], lineWrap)),
                                  CopyToClipboard(Wrap(cs[k], lineWrap))))
  {
    ChoiceItemsSucceed(choices, lineWrap);
    ChoiceItemsContents(choices, lineWrap);
    ChoiceItemsFail(choices, lineWrap);
  }

  /** An answer of only whitespace passes the filter and shows an empty description. */
  lemma BlankAnswerShowsEmpty(content: string, lineWrap: int)
    requires content != "" && Split(content) == []
    ensures ResponseItem(Wrap(content, lineWrap)) == Item(ExtensionIcon, "Grok Response", Some(""), CopyToClipboard(""))
  {
    WrapFirstLine(content, lineWrap);
  }
}
