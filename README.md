# ugrok: the Grok keyword query, modelled in Dafny

ugrok is a Ulauncher extension. When its keyword is typed, it sends the
rest of the query to xAI's chat-completion endpoint and shows each answer as
a result item. An answer is word-wrapped to a configurable width, shown as
the item's description, and copied to the clipboard on Enter. This project
models the two pieces of `main.py` that decide what is shown:

- `wrap_text` (module `Wrapping`, file `wrap.dfy`), the greedy word wrapper.
  - `Layout` is the layout the source's loop builds, one word at a time.
  - `IsGreedyLayout` describes the same layout declaratively, and the two
    are proved to coincide.
  - `Wrapping.WrapText` is the source's loop itself: a `for` loop over the
    words that grows `current_line` and flushes it into `lines`, proved to
    return `Wrap`.
  - The properties of the result are proved about `Wrap`: the words are
    kept, each line is its words joined by single spaces, and the line
    lengths are bounded.
- `KeywordQueryEventListener.on_event` (module `KeywordQuery`, file
  `keyword_query.dfy`), a pure function from three inputs to a `Handled`
  value.
  - The inputs are the preferences, the typed argument and the outcome of
    the HTTP request.
  - `Handled` holds the request that is sent, if any, and the ordered list
    of result items. Each item has a name, an optional description and an
    Enter action, either copy-to-clipboard or do-nothing.
  - The loop over `choices` is the method `KeywordQuery.CollectItems`,
    proved to return the filter-map function `ChoiceItems`.

The supporting modules:

- `Strings` (`strings.dfy`) models Python's `str.split()`, `str.strip()` and
  `str.join` on `string`, with Python's `str.isspace` character set.
- `Wrappers` (`wrappers.dfy`) holds `Option` and `Result`.
- `WrapExamples` (`wrap_examples.dfy`) and `KeywordQueryExamples`
  (`keyword_query_examples.dfy`) hold concrete runs.

Three things the code does that a plain reading of its intent might not
suggest:

- A prompt of only spaces is truthy, so it is sent (`WhitespacePromptIsSent`).
- The `len(current_line + word) <= max_w` test does not count the space that
  joins a word to a later line. A later line of two or more words can
  therefore reach `max_w + 1` characters (`WrapLaterLines`,
  `LaterLineReachesWidthPlusOne`). The first line carries a leading space
  while it is built, so it stays within `max_w`.
- The `error.message` lookup at main.py:138-141 can never succeed:
  - The except branch is reached only when the decoded response is not an
    object.
  - In that case the lookup raises too, so a parse failure always shows the
    fixed "Unknown error" text (`ParseResponse`).

## Model

| member | source | states |
|---|---|---|
| Strings.Split | main.py:16 | `text.split()`: every piece is a non-empty run of non-whitespace characters, and there are no more pieces than characters |
| Strings.IsSpace | main.py:16 | the whitespace of Python's `str.isspace()`, on which `split()` at main.py:16 breaks and `strip()` at main.py:23 and 25 trims; a definition without a contract of its own, used by the contracts of `Split`, `StripLeft` and `StripRight` |
| Strings.SplitJoin | main.py:16 | splitting words joined by one whitespace character gives back exactly those words |
| Strings.Join | main.py:26 | `sep.join(parts)`, also used for the spaces between the words of a line; a definition without a contract of its own, whose meaning is stated by `SplitJoin`, `JoinCons` and `WrapKeepsWords` |
| Strings.JoinCons | main.py:26 | `sep.join([w] + parts)` for non-empty `parts` is `w`, the separator, then `sep.join(parts)`: the join read from the front |
| Strings.StripLeft | main.py:23-25 | the leading-whitespace half of `strip()`: the result is a suffix of `s`, everything removed is whitespace, and it does not start with whitespace |
| Strings.StripRight | main.py:23-25 | the trailing-whitespace half of `strip()`: the result is a prefix of `s`, everything removed is whitespace, and it does not end with whitespace |
| Strings.Strip | main.py:23-25 | `s.strip()` as the trailing strip of the leading strip; a definition without a contract of its own, whose meaning is stated by the contracts of `StripLeft` and `StripRight` |
| Strings.StripJoinedWords | main.py:23 | words joined by spaces, with or without one leading space, strip to the spaced words |
| Strings.StripOneSpace | main.py:23-25 | `strip()` removes one space written before such a string |
| Wrapping.Fits | main.py:20 | the length test as arithmetic on the words of the current line; a definition without a contract of its own, shown equal to the source's test by `TestIsFits` |
| Wrapping.TestIsFits | main.py:20 | the source's test `len(current_line + word) <= max_w` is `Fits`: on the first line it counts the space before the word, on a later line it does not |
| Wrapping.CurrentLine | main.py:18-24 | what `current_line` holds while the line holds given words: on the first line, which starts as '' (main.py:18) and grows by ' ' + word (main.py:21), every word is preceded by a space; a later line starts as its first word (main.py:24); a definition without a contract of its own, whose meaning is stated by `TestIsFits`, `StripCurrentLine` and the loop invariant of `WrapText` |
| Wrapping.Prefixed | main.py:18-21 | the first line as built from '' by `current_line += ' ' + word`; a definition without a contract of its own, whose meaning is stated by `PrefixedIsSpacedJoin` |
| Wrapping.PrefixedIsSpacedJoin | main.py:18-21 | the first line as built is '' for no words and otherwise one space followed by the words joined by spaces |
| Wrapping.StripCurrentLine | main.py:23-25 | `current_line.strip()` is the line's words joined by single spaces, on the first line as on a later one |
| Wrapping.Layout | main.py:19-24 | the layout the loop builds, word by word with the length test; it has at least one line and every line after the first is non-empty |
| Wrapping.LayoutIsGreedy | main.py:19-24 | the layout the loop builds keeps the words in order; each word that joined a line passed the test, and each word that opened a later line failed it for the line before |
| Wrapping.GreedyLayoutUnique | main.py:19-24 | a layout is greedy in that sense if and only if it is the loop's layout |
| Wrapping.LayoutKeepsWords | main.py:16-24 | the loop's layout holds exactly the words of the text, in order |
| Wrapping.LayoutAppend | main.py:20-24 | one turn of the loop: the word joins the current line when the test passes and otherwise starts a new line |
| Wrapping.ExtendLastCurrent | main.py:21 | when the word joins, `current_line` becomes `current_line + ' ' + word` and the flushed lines stay |
| Wrapping.NewLineCurrent | main.py:23-24 | when the word breaks, the stripped `current_line` is appended to `lines` and `current_line` becomes the word |
| Wrapping.FlushLast | main.py:25 | the stripped `current_line` appended after the loop completes the lines of the layout |
| Wrapping.StepJoin | main.py:20-21 | a word that passes the test extends the layout's last line, leaves `lines` alone and appends ' ' + word to `current_line` |
| Wrapping.StepBreak | main.py:22-24 | a word that fails the test opens a new line of the layout, appends the stripped `current_line` to `lines` and makes the word the new `current_line` |
| Wrapping.StepFlush | main.py:25 | after the last word, `lines` plus the stripped `current_line` are the lines of the whole layout |
| Wrapping.Wrap | main.py:15-26 | wrap_text's result: the lines of the loop's layout, each joined by single spaces, joined by '\n'; a definition without a contract of its own, whose properties are stated by `WrapKeepsWords`, `WrapFirstLine`, `WrapLaterLines` and `WrapLineShape` |
| Wrapping.WrappedLines | main.py:17-25 | the list `lines` that wrap_text joins: the text of each line of the loop's layout of `text.split()`; a definition without a contract of its own, whose properties are stated by `WrapFirstLine`, `WrapLaterLines`, `WrapLineShape` and `LaterLineReachesWidthPlusOne` |
| Wrapping.WrapText | main.py:15-26 | the source's loop returns `Wrap(text, max_w)`, the lines of the loop's layout joined by '\n' |
| Wrapping.WrapKeepsWords | main.py:15-26 | the wrapped text has the same words as the input, in the same order |
| Wrapping.WrapFirstLine | main.py:18-25 | there is always a first line; it is empty if and only if the text has no words or its first word is longer than `max_w`, and otherwise it is at most `max_w` long; a text without words wraps to '' |
| Wrapping.WrapLaterLines | main.py:20-24 | every later line is non-empty, and a later line of two or more words is at most `max_w + 1` long |
| Wrapping.WrapLineShape | main.py:21-26 | every line is its own words joined by single spaces, so no line holds another whitespace character |
| WrapExamples.WrapHelloWorld | main.py:15-26 | wrap_text('hello world', 5) is 'hello\nworld' |
| WrapExamples.LaterLineReachesWidthPlusOne | main.py:20-24 | 'abcd ab cd' at width 4 wraps to 'abcd\nab cd', whose second line has 5 characters |
| WrapExamples.LongFirstWordLeavesFirstLineEmpty | main.py:18-25 | 'abcde ab' at width 4 wraps to '\nabcde\nab': a first word that is too long leaves the first line empty |
| KeywordQuery.PreferenceErrors | main.py:48-57 | the errors that reading the preferences meets, in the order the source reads them: none if and only if the API key is present and every conversion succeeds; a missing API key is always the first |
| KeywordQuery.Converted | main.py:50-56 | `int(...)` or `float(preferences.get(key, default))` for the numeric preferences: the default when the key is absent, otherwise the parsed value or the conversion's error; a definition without a contract of its own, whose use is stated by `LoadConfig` and `DefaultConfig` |
| KeywordQuery.OrDefault | main.py:55-57 | `preferences.get(key, default)` for the string preferences `system_prompt` and `model`: the set value, or else the default; a definition without a contract of its own, whose use is stated by `LoadConfig` and `DefaultConfig` |
| KeywordQuery.LoadConfig | main.py:48-64 | reading the preferences fails if and only if a preference error exists, and then with the first error; otherwise each setting is its parsed value or the source's default |
| KeywordQuery.DefaultConfig | main.py:49-57 | with only the API key set, the defaults are 100, 0.0, 0.0, 0.7, 1.0, 'You are Grok, created by xAI.', 80 and 'grok-3-beta' |
| KeywordQuery.HeaderValue | main.py:79-82 | the value of the first header with a given name: `None` if and only if no header has that name, otherwise the value of a header with that name before which no header has that name |
| KeywordQuery.BuildRequest | main.py:79-101 | the request goes to the xAI endpoint with exactly two headers, `Authorization: Bearer <api_key>` and the JSON content type; it carries a system message with the system prompt, then a user message with the query, and every configured parameter |
| KeywordQuery.ErrorItem | main.py:61-63 | the item for an error, built the same way at main.py:61-63, 116-118, 143-145 and 164-166: the name is the message prefix plus the error text, and Enter copies the error text; a definition without a contract of its own, whose uses are stated by `PreferencesCheckedFirst`, `SingleItemOutcomes` and `AnswersShown` |
| KeywordQuery.NoticeItem | main.py:73-75 | the item that only informs, built the same way at main.py:73-75, 131-133 and 172-174: the given name and no action on Enter; a definition without a contract of its own, whose uses are stated by `BlankArgumentPrompts`, `SingleItemOutcomes` and `AnswersShown` |
| KeywordQuery.ResponseItem | main.py:155-160 | the item for one answer: named 'Grok Response', with the wrapped content as description and as the text Enter copies; a definition without a contract of its own, whose use is stated by `ChoiceItemsContents` and `AnswersShown` |
| KeywordQuery.ParseResponse | main.py:125-146 | parsing fails if and only if the decoded response is not an object, and a parse failure always carries the fixed unknown-error text |
| KeywordQuery.ErrorMessage | main.py:137-141 | the message the except branch computes: the fixed unknown-error text when `response_data` is unbound or not an object, otherwise `error.message` or the fixed text; a definition without a contract of its own, whose use is stated by `ParseResponse` |
| KeywordQuery.Contents | main.py:151-153 | the contents that pass `if not message` are non-empty and no more numerous than the choices |
| KeywordQuery.ChoiceItems | main.py:150-160 | the loop as a filter-map that stops at the first choice that raises; a successful loop gives at most one item per choice |
| KeywordQuery.ChoiceItemsSucceed | main.py:149-167 | the loop over the choices succeeds if and only if no choice raises |
| KeywordQuery.ChoiceItemsContents | main.py:150-160 | a successful loop gives one item per non-empty content, in order, each showing and copying the content wrapped to `line_wrap` |
| KeywordQuery.ChoiceItemsFail | main.py:149-167 | a failed loop reports the error of the first choice that raises |
| KeywordQuery.ChoiceItemsStop | main.py:150-161 | once a choice raises, later choices do not change the outcome |
| KeywordQuery.CollectItems | main.py:148-167 | the source's loop returns `ChoiceItems`, leaving at the first exception |
| KeywordQuery.ResponseItems | main.py:148-175 | the items for the `choices` to process: always at least one, and exactly one when `choices` cannot be iterated |
| KeywordQuery.Respond | main.py:107-184 | the items once the request is sent: always at least one, and exactly one unless the response is an object whose `choices` is a list |
| KeywordQuery.Blank | main.py:70 | `not search_term`: the argument is missing or empty; a predicate without a contract of its own, whose consequences are stated by `OnEvent`, `BlankArgumentPrompts` and `WhitespacePromptIsSent` |
| KeywordQuery.OnEvent | main.py:43-184 | on_event always renders at least one item, and it sends a request if and only if the preferences read without error and the argument is non-empty |
| KeywordQuery.PreferencesCheckedFirst | main.py:48-64 | a preference error gives exactly one item, named after the first error and copying it, whatever the argument and the network do |
| KeywordQuery.BlankArgumentPrompts | main.py:67-76 | a missing or empty argument gives the single 'Type in a prompt...' item, which does nothing, and no request |
| KeywordQuery.WhitespacePromptIsSent | main.py:70 | a prompt of only whitespace is sent |
| KeywordQuery.QuerySent | main.py:79-119 | a non-empty query is sent to the endpoint as system prompt, then query, with the bearer token; what is shown is the outcome of that request at the configured line width |
| KeywordQuery.UnsentIgnoresOutcome | main.py:58-76 | when nothing is sent, the network outcome plays no part |
| KeywordQuery.SingleItemOutcomes | main.py:108-167 | each failure shows exactly one item: a failed request copies its error, an undecodable response copies the unknown-error text, an object without choices says 'No response from Grok', and a non-iterable `choices` copies its error |
| KeywordQuery.ErrorMessageIgnored | main.py:137-146 | the response's `error.message` never changes what is shown |
| KeywordQuery.AnswersShown | main.py:148-184 | for a non-empty choice list: a raising choice gives one item with the first error; otherwise there is one item per non-empty content, in order, with the wrapped content as description and copied text and at most one item per choice; if no content is left, the single 'No valid response from Grok' item |
| KeywordQuery.BlankAnswerShowsEmpty | main.py:152-159 | an answer of only whitespace passes the filter and shows as an empty description |
| KeywordQueryExamples.MissingKeyReportedFirst | main.py:49-50 | a missing API key is reported before a preference that does not convert |
| KeywordQueryExamples.HelloWorldAnswer | main.py:148-184 | at width 5, an empty first choice is skipped and 'hello world' is shown and copied as 'hello\nworld' |
| KeywordQueryExamples.SecondAnswerAtWidthFive | main.py:148-184 | at width 5, with an empty first choice, the second choice's wrapped content is the only item |
| KeywordQueryExamples.FirstBrokenChoiceReported | main.py:149-167 | the first raising choice decides the error, even after a good answer |

## Left out

- The HTTP call (`requests.post` with its 15-second timeout and `raise_for_status`) is not modelled: its outcome is a parameter of `OnEvent`. The parameter is either a `RequestException` with its text or a decoded response.
- Exceptions that `requests.post` raises other than `RequestException` propagate out of on_event in the source. They are not modelled.
- `json.dumps` of the body and `response.json()` are abstracted. The body is a `RequestBody` value. The decoded response is a `ResponseData`, with each element of `choices` reduced to a `Choice`: its content, or the error that reading it raises.
- `int()` and `float()` conversion of preference strings is abstracted. Each preference arrives as absent, converted, or failed with the exception's text. Floats are modelled as `real`, without rounding.
- The Ulauncher classes (`Extension`, `EventListener`, `ExtensionResultItem`, `RenderResultListAction` and the actions) become plain datatypes. The `__init__` subscription and `run()` are not modelled.
- Logging is not modelled, including the results-logging block of main.py:177-182, which can only log and never changes the items.
- KeywordQuery.ErrorMessage: a response object whose `error.message` is not a string would make `'Failed to parse response: ' + err_msg` raise in the source. That path is unreachable anyway (`ParseResponse`), so only string messages are modelled.
- Python's `str.split()` and `str.strip()` are modelled with the `str.isspace` character set, on Unicode scalar values. Surrogates and the byte-level encoding are not modelled.
