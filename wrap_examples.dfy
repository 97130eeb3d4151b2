/**
 * Concrete runs of wrap_text that pin down its edge cases. Each run is
 * taken apart into the split, the layout and the joined lines.
 */
module WrapExamples {
  import opened Strings
  import opened Wrapping

  /** wrap_text('hello world', 5) == 'hello\nworld'. */
  lemma WrapHelloWorld()
    ensures Wrap("hello world", 5) == "hello\nworld"
  {
    SplitSpaced(["hello", "world"], "hello world");
    LayoutHelloWorld();
    JoinHelloWorld();
  }

  lemma LayoutHelloWorld()
    ensures Layout(["hello", "world"], 5) == [["hello"], ["world"]]
  {
    LayoutPair("hello", "world", 5);
  }

  lemma JoinHelloWorld()
    ensures Join(Lines([["hello"], ["world"]]), "\n") == "hello\nworld"
  {
    assert Lines([["hello"], ["world"]]) == ["hello", "world"];
  }

  /**
   * A later line may be one longer than `max_w` although no word is:
   * wrap_text('abcd ab cd', 4) == 'abcd\nab cd', whose second line has 5
   * characters.
   */
  lemma LaterLineReachesWidthPlusOne()
    ensures Split("abcd ab cd") == ["abcd", "ab", "cd"]
    ensures WrappedLines("abcd ab cd", 4) == ["abcd", "ab cd"]
    ensures Wrap("abcd ab cd", 4) == "abcd\nab cd"
  {
    SplitSpaced(["abcd", "ab", "cd"], "abcd ab cd");
    LayoutWidthPlusOne();
    JoinWidthPlusOne();
  }

  lemma LayoutWidthPlusOne()
    ensures Layout(["abcd", "ab", "cd"], 4) == [["abcd"], ["ab", "cd"]]
  {
    LayoutBeforeWidthPlusOne();
    LayoutSnoc(["abcd", "ab"], "cd", 4);
    assert ["abcd", "ab"] + ["cd"] == ["abcd", "ab", "cd"];
    var gs := [["abcd"], ["ab"]];
    assert Fits(false, gs[1], "cd", 4);
    assert ExtendLast(gs, "cd") == [["abcd"], ["ab", "cd"]] by {
      assert gs[..1] == [["abcd"]] && gs[1] + ["cd"] == ["ab", "cd"];
    }
  }

  lemma LayoutBeforeWidthPlusOne()
    ensures Layout(["abcd", "ab"], 4) == [["abcd"], ["ab"]]
  {
    LayoutPair("abcd", "ab", 4);
  }

  lemma JoinWidthPlusOne()
    ensures Lines([["abcd"], ["ab", "cd"]]) == ["abcd", "ab cd"]
    ensures Join(["abcd", "ab cd"], "\n") == "abcd\nab cd"
  {
    assert Join(["ab", "cd"], " ") == "ab cd";
  }

  /**
   * A first word longer than `max_w` leaves the first line empty:
   * wrap_text('abcde ab', 4) == '\nabcde\nab'.
   */
  lemma LongFirstWordLeavesFirstLineEmpty()
    ensures Wrap("abcde ab", 4) == "\nabcde\nab"
  {
    SplitSpaced(["abcde", "ab"], "abcde ab");
    LayoutLongFirstWord();
    JoinLongFirstWord();
  }

  lemma LayoutLongFirstWord()
    ensures Layout(["abcde", "ab"], 4) == [[], ["abcde"], ["ab"]]
  {
    LayoutSingle("abcde", 4);
    LayoutSnoc(["abcde"], "ab", 4);
    assert ["abcde"] + ["ab"] == ["abcde", "ab"];
  }

  lemma JoinLongFirstWord()
    ensures Join(Lines([[], ["abcde"], ["ab"]]), "\n") == "\nabcde\nab"
  {
    assert Lines([[], ["abcde"], ["ab"]]) == ["", "abcde", "ab"];
  }

  /** A text that is its words joined by single spaces splits into those words. */
  lemma SplitSpaced(ws: seq<string>, text: string)
    requires AllWords(ws) && text == Join(ws, " ")
    ensures Split(text) == ws
  {
    SplitJoin(ws, ' ');
  }

  /** One word goes on the first line when it passes the test, and onto a second line otherwise. */
  lemma LayoutSingle(w: string, maxW: int)
    ensures Layout([w], maxW) == if |w| <= maxW then [[w]] else [[], [w]]
  {
    assert [w][..0] == [];
    var gs: seq<seq<string>> := [[]];
    assert gs[0] + [w] == [w];
    assert gs[..0] + [[w]] == [[w]];
  }

  /** Two words that do not share the first line, the first fitting it alone. */
  lemma LayoutPair(a: string, b: string, maxW: int)
    requires |a| <= maxW < |a| + 1 + |b|
    ensures Layout([a, b], maxW) == [[a], [b]]
  {
    LayoutSingle(a, maxW);
    LayoutSnoc([a], b, maxW);
    assert [a] + [b] == [a, b];
    assert Join([a], " ") == a;
  }

  /** The loop's layout after one more word. */
  lemma LayoutSnoc(ws: seq<string>, w: string, maxW: int)
    ensures var gs := Layout(ws, maxW);
      Layout(ws + [w], maxW) == if Fits(|gs| == 1, gs[|gs| - 1], w, maxW) then ExtendLast(gs, w) else gs + [[w]]
  {
    assert (ws + [w])[..|ws|] == ws;
  }
}
