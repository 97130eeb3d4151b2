/** Concrete runs of on_event, from the preferences to the rendered items. */
module KeywordQueryExamples {
  import opened Wrappers
  import opened Wrapping
  import opened WrapExamples
  import opened KeywordQuery

  /** A missing API key is reported before a preference that does not convert. */
  lemma MissingKeyReportedFirst()
    ensures OnEvent(Preferences(None, Present(Failure("invalid literal for int() with base 10: 'x'")),
                                Absent, Absent, Absent, Absent, None, Absent, None),
                    Some("hi"), RequestFailed("timeout")).items ==
      [Item(ExtensionIcon, "Failed to parse preferences: 'api_key'", None, CopyToClipboard("'api_key'"))]
  {
    var prefs := Preferences(None, Present(Failure("invalid literal for int() with base 10: 'x'")),
                             Absent, Absent, Absent, Absent, None, Absent, None);
    assert PreferenceErrors(prefs)[0] == MissingApiKey;
    PreferencesCheckedFirst(prefs, Some("hi"), RequestFailed("timeout"));
    var h := OnEvent(prefs, Some("hi"), RequestFailed("timeout"));
    assert h.items == [ErrorItem("Failed to parse preferences: ", MissingApiKey)];
    assert "Failed to parse preferences: " + MissingApiKey == "Failed to parse preferences: 'api_key'";
  }

  /**
   * With a line width of 5, an empty first choice is skipped and the
   * second, 'hello world', is shown wrapped as 'hello\nworld'.
   */
  lemma HelloWorldAnswer()
    ensures OnEvent(Preferences(Some("key"), Absent, Absent, Absent, Absent, Absent, None, Present(Success(5)), None),
                    Some("hi"), Succeeded(Object(Listed([Text(""), Text("hello world")]), None))).items ==
      [Item(ExtensionIcon, "Grok Response", Some("hello\nworld"), CopyToClipboard("hello\nworld"))]
  {
    SecondAnswerAtWidthFive("hello world");
    WrapHelloWorld();
  }

  /** With a line width of 5 and an empty first choice, the second choice is the only item. */
  lemma SecondAnswerAtWidthFive(content: string)
    requires content != ""
    ensures OnEvent(Preferences(Some("key"), Absent, Absent, Absent, Absent, Absent, None, Present(Success(5)), None),
                    Some("hi"), Succeeded(Object(Listed([Text(""), Text(content)]), None))).items ==
      [ResponseItem(Wrap(content, 5))]
  {
    var prefs := Preferences(Some("key"), Absent, Absent, Absent, Absent, Absent, None, Present(Success(5)), None);
    var http := Succeeded(Object(Listed([Text(""), Text(content)]), None));
    WidthFive();
    QuerySent(prefs, "hi", http);
    RespondSecondAnswer(content, 5);
  }

  /** The preferences of the example above read without error, with a line width of 5. */
  lemma WidthFive()
    ensures var prefs := Preferences(Some("key"), Absent, Absent, Absent, Absent, Absent, None, Present(Success(5)), None);
      PreferenceErrors(prefs) == [] && LoadConfig(prefs).value.lineWrap == 5
  {
  }

  /** A response whose first choice is empty shows only the second. */
  lemma RespondSecondAnswer(content: string, lineWrap: int)
    requires content != ""
    ensures Respond(Succeeded(Object(Listed([Text(""), Text(content)]), None)), lineWrap) ==
      [ResponseItem(Wrap(content, lineWrap))]
  {
    SkipEmptyFirst(content, lineWrap);
    RespondLoopItems([Text(""), Text(content)], None, lineWrap, [ResponseItem(Wrap(content, lineWrap))]);
  }

  /** When the loop over a non-empty list of choices yields items, those items are shown. */
  lemma RespondLoopItems(choices: seq<Choice>, m: Option<string>, lineWrap: int, items: seq<Item>)
    requires choices != [] && items != [] && ChoiceItems(choices, lineWrap) == Success(items)
    ensures Respond(Succeeded(Object(Listed(choices), m)), lineWrap) == items
  {
  }

  /** An empty first choice adds nothing: only the second becomes an item. */
  lemma SkipEmptyFirst(content: string, lineWrap: int)
    requires content != ""
    ensures ChoiceItems([Text(""), Text(content)], lineWrap) == Success([ResponseItem(Wrap(content, lineWrap))])
  {
    var choices := [Text(""), Text(content)];
    assert choices[..1] == [Text("")];
    assert [Text("")][..0] == [];
    assert ChoiceItems([], lineWrap) == Success([]);
    assert ChoiceItems([Text("")], lineWrap) == Success([]);
    var item := ResponseItem(Wrap(content, lineWrap));
    assert [] + [item] == [item];
  }

  /** The first choice that raises decides the error shown, even after a good answer. */
  lemma FirstBrokenChoiceReported()
    ensures Respond(Succeeded(Object(Listed([Text("ok"), Broken("e1"), Broken("e2")]), None)), 80) ==
      [Item(ExtensionIcon, "Failed to process response: e1", None, CopyToClipboard("e1"))]
  {
    var choices := [Text("ok"), Broken("e1"), Broken("e2")];
    assert choices[..1] == [Text("ok")];
    assert [Text("ok")][..0] == [];
    assert ChoiceItems(choices[..1], 80).Success?;
    ChoiceItemsStop(choices, 1, 80);
    assert ParseResponse(Object(Listed(choices), None)) == ToProcess(Listed(choices));
    assert ResponseItems(Listed(choices), 80) == [ErrorItem("Failed to process response: ", "e1")];
    assert "Failed to process response: " + "e1" == "Failed to process response: e1";
  }
}
