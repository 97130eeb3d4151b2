/**
 * wrap_text (main.py:15-26): greedy word wrapping.
 *
 * A wrapped text is described by its layout, the words of each line as a
 * sequence of words per line. `Layout` is the layout the source's loop
 * builds, one word at a time; `IsGreedyLayout` is a declarative description
 * of the same layout, and the two are proved to coincide. `WrapText` is the
 * source's loop itself, proved to return `Wrap`.
 */
module Wrapping {
  import opened Strings

  /** The words of a layout, line after line. */
  function Flatten(gs: seq<seq<string>>): seq<string>
  {
    if gs == [] then [] else Flatten(gs[..|gs| - 1]) + gs[|gs| - 1]
  }

  /** The text of each line: its words joined by single spaces. */
  function Lines(gs: seq<seq<string>>): (ls: seq<string>)
    ensures |ls| == |gs|
  {
    if gs == [] then [] else Lines(gs[..|gs| - 1]) + [Join(gs[|gs| - 1], " ")]
  }

  lemma {:induction false} LinesAt(gs: seq<seq<string>>, j: nat)
    requires j < |gs|
    ensures Lines(gs)[j] == Join(gs[j], " ")
  {
    if j < |gs| - 1 {
      LinesAt(gs[..|gs| - 1], j);
    }
  }

  /**
   * What the source keeps in `current_line` while the line holds `line`:
   * the first line starts as '' and takes ' ' + word for every word, so it
   * carries a leading space; a later line starts as its first word.
   */
  function CurrentLine(first: bool, line: seq<string>): string
  {
    if first then Prefixed(line) else Join(line, " ")
  }

  /** Every word of `line` preceded by a space. */
  function Prefixed(line: seq<string>): string
  {
    if line == [] then "" else Prefixed(line[..|line| - 1]) + " " + line[|line| - 1]
  }

  /**
   * The layout the loop of main.py:19-24 builds: a word joins the current
   * line when `len(current_line + word) <= max_w`, and otherwise starts a
   * new line. The first line may be left empty; every later one holds at
   * least one word.
   */
  function Layout(ws: seq<string>, maxW: int): (gs: seq<seq<string>>)
    ensures |gs| >= 1
    ensures forall j :: 0 < j < |gs| ==> gs[j] != []
  {
    if ws == [] then [[]]
    else
      var gs := Layout(ws[..|ws| - 1], maxW);
      var w := ws[|ws| - 1];
      var line := gs[|gs| - 1];
      if Fits(|gs| == 1, line, w, maxW) then ExtendLast(gs, w)
      else gs + [[w]]
  }

  /** The layout with `w` added to its last line. */
  function ExtendLast(gs: seq<seq<string>>, w: string): seq<seq<string>>
    requires gs != []
  {
    gs[..|gs| - 1] + [gs[|gs| - 1] + [w]]
  }

  /** wrap_text(text, max_w) */
  function Wrap(text: string, maxW: int): string
  {
    Join(WrappedLines(text, maxW), "\n")
  }

  /** The lines that wrap_text joins with '\n'. */
  function WrappedLines(text: string, maxW: int): seq<string>
  {
    Lines(Layout(Split(text), maxW))
  }

  /**
   * Whether `w` passes the source's length test `len(current_line + word) <= max_w`
   * when it is considered for a line that already holds `line` (`TestIsFits`):
   * on the first line `current_line` carries a space before each word, so the
   * test bounds the line with `w` added; on a later line it bounds the line
   * plus `w` but without the separating space.
   */
  predicate Fits(first: bool, line: seq<string>, w: string, maxW: int)
  {
    if first && line == [] then |w| <= maxW
    else if first then |Join(line, " ")| + 1 + |w| <= maxW
    else |Join(line, " ")| + |w| <= maxW
  }

  /**
   * `gs` lays out `ws` greedily: the lines hold the words in order, every
   * line after the first is non-empty, every word that is not the first of a
   * later line passed the test for the line it joined, and every word that
   * starts a later line failed the test for the line before.
   */
  ghost predicate IsGreedyLayout(ws: seq<string>, gs: seq<seq<string>>, maxW: int)
  {
    |gs| >= 1 && Flatten(gs) == ws && WordsFit(gs, maxW) && BreaksForced(gs, maxW)
  }

  /** Each word that joined a line passed the test for the words before it on that line. */
  ghost predicate WordsFit(gs: seq<seq<string>>, maxW: int)
  {
    forall j, k :: 0 <= j < |gs| && 0 <= k < |gs[j]| && (j == 0 || 0 < k) ==> WordFits(gs, j, k, maxW)
  }

  /** Word `k` of line `j` passed the test for the `k` words before it. */
  ghost predicate WordFits(gs: seq<seq<string>>, j: nat, k: nat, maxW: int)
    requires j < |gs| && k < |gs[j]|
  {
    Fits(j == 0, gs[j][..k], gs[j][k], maxW)
  }

  /** Each later line is non-empty, and its first word failed the test for the line before it. */
  ghost predicate BreaksForced(gs: seq<seq<string>>, maxW: int)
  {
    forall j :: 0 < j < |gs| ==> BreakBefore(gs, j, maxW)
  }

  /** Line `j` is non-empty and its first word failed the test for line `j - 1`. */
  ghost predicate BreakBefore(gs: seq<seq<string>>, j: nat, maxW: int)
    requires 0 < j < |gs|
  {
    gs[j] != [] && !Fits(j == 1, gs[j - 1], gs[j][0], maxW)
  }

  /** The source's test on `current_line + word` is `Fits`. */
  lemma TestIsFits(first: bool, line: seq<string>, w: string, maxW: int)
    ensures (|CurrentLine(first, line) + w| <= maxW) == Fits(first, line, w, maxW)
  {
    if first {
      PrefixedIsSpacedJoin(line);
    }
  }

  lemma {:induction false} PrefixedIsSpacedJoin(line: seq<string>)
    ensures Prefixed(line) == if line == [] then "" else " " + Join(line, " ")
  {
    if |line| > 1 {
      var front := line[..|line| - 1];
      PrefixedIsSpacedJoin(front);
      JoinSnoc(front, line[|line| - 1], " ");
      assert front + [line[|line| - 1]] == line;
    }
  }

  /** What the source appends to `lines` when it flushes a line: `current_line.strip()` is the line's words joined by spaces. */
  lemma StripCurrentLine(first: bool, line: seq<string>)
    requires AllWords(line)
    ensures Strip(CurrentLine(first, line)) == Join(line, " ")
  {
    PrefixedIsSpacedJoin(line);
    StripJoinedWords(line);
  }

  lemma SplitLast<T>(s: seq<T>)
    requires s != []
    ensures s == s[..|s| - 1] + [s[|s| - 1]]
  {
  }

  lemma FlattenSnoc(gs: seq<seq<string>>, g: seq<string>)
    ensures Flatten(gs + [g]) == Flatten(gs) + g
  {
    assert (gs + [g])[..|gs|] == gs;
  }

  lemma {:induction false} FlattenCons(gs: seq<seq<string>>)
    requires gs != []
    ensures Flatten(gs) == gs[0] + Flatten(gs[1..])
  {
    if |gs| == 1 {
      FlattenSnoc([], gs[0]);
      assert [] + [gs[0]] == gs;
    } else {
      var front, last := gs[..|gs| - 1], gs[|gs| - 1];
      FlattenCons(front);
      assert front[0] == gs[0];
      assert front[1..] + [last] == gs[1..];
      FlattenSnoc(front[1..], last);
      assert Flatten(gs) == Flatten(front) + last;
      assert gs[0] + Flatten(front[1..]) + last == gs[0] + (Flatten(front[1..]) + last);
    }
  }

  lemma {:induction false} FlattenEmpty(gs: seq<seq<string>>, j: nat)
    requires j < |gs| && Flatten(gs) == []
    ensures gs[j] == []
  {
    if j < |gs| - 1 {
      FlattenEmpty(gs[..|gs| - 1], j);
    }
  }

  lemma {:induction false} FlattenAllWords(gs: seq<seq<string>>, j: nat)
    requires j < |gs| && AllWords(Flatten(gs))
    ensures AllWords(gs[j])
  {
    var front := gs[..|gs| - 1];
    FlattenSnoc(front, gs[|gs| - 1]);
    assert front + [gs[|gs| - 1]] == gs;
    if j < |gs| - 1 {
      assert AllWords(Flatten(front)) by {
        forall i | 0 <= i < |Flatten(front)| ensures IsWord(Flatten(front)[i]) {
          assert Flatten(front)[i] == Flatten(gs)[i];
        }
      }
      FlattenAllWords(front, j);
    } else {
      forall i | 0 <= i < |gs[j]| ensures IsWord(gs[j][i]) {
        assert gs[j][i] == Flatten(gs)[|Flatten(front)| + i];
      }
    }
  }

  // Extending the last line with a word that passes the test keeps a layout greedy.

  lemma ExtendLastFlatten(gs: seq<seq<string>>, w: string)
    requires gs != []
    ensures Flatten(ExtendLast(gs, w)) == Flatten(gs) + [w]
  {
    var front, line := gs[..|gs| - 1], gs[|gs| - 1];
    SplitLast(gs);
    FlattenSnoc(front, line);
    FlattenSnoc(front, line + [w]);
  }

  lemma ExtendLastWordsFit(gs: seq<seq<string>>, w: string, maxW: int)
    requires gs != [] && WordsFit(gs, maxW)
    requires Fits(|gs| == 1, gs[|gs| - 1], w, maxW)
    ensures WordsFit(ExtendLast(gs, w), maxW)
  {
    var n, line, hs := |gs|, gs[|gs| - 1], ExtendLast(gs, w);
    forall j, k | 0 <= j < |hs| && 0 <= k < |hs[j]| && (j == 0 || 0 < k)
      ensures WordFits(hs, j, k, maxW)
    {
      if j < n - 1 {
        assert hs[j] == gs[j];
        assert WordFits(gs, j, k, maxW);
      } else if k < |line| {
        assert hs[j] == line + [w];
        assert hs[j][..k] == line[..k] && hs[j][k] == line[k];
        assert WordFits(gs, j, k, maxW);
      } else {
        assert hs[j] == line + [w];
        assert hs[j][..k] == line && hs[j][k] == w;
      }
    }
  }

  lemma ExtendLastBreaksForced(gs: seq<seq<string>>, w: string, maxW: int)
    requires gs != [] && BreaksForced(gs, maxW)
    ensures BreaksForced(ExtendLast(gs, w), maxW)
  {
    var n, line, hs := |gs|, gs[|gs| - 1], ExtendLast(gs, w);
    forall j | 0 < j < |hs|
      ensures BreakBefore(hs, j, maxW)
    {
      assert BreakBefore(gs, j, maxW);
      assert hs[j - 1] == gs[j - 1];
      if j < n - 1 {
        assert hs[j] == gs[j];
      } else {
        assert hs[j] == line + [w] && hs[j][0] == line[0];
      }
    }
  }

  // Starting a new line with a word that fails the test keeps a layout greedy.

  lemma NewLineWordsFit(gs: seq<seq<string>>, w: string, maxW: int)
    requires gs != [] && WordsFit(gs, maxW)
    ensures WordsFit(gs + [[w]], maxW)
  {
    var hs := gs + [[w]];
    forall j, k | 0 <= j < |hs| && 0 <= k < |hs[j]| && (j == 0 || 0 < k)
      ensures WordFits(hs, j, k, maxW)
    {
      assert j < |gs|;
      assert hs[j] == gs[j];
      assert WordFits(gs, j, k, maxW);
    }
  }

  lemma NewLineBreaksForced(gs: seq<seq<string>>, w: string, maxW: int)
    requires gs != [] && BreaksForced(gs, maxW)
    requires !Fits(|gs| == 1, gs[|gs| - 1], w, maxW)
    ensures BreaksForced(gs + [[w]], maxW)
  {
    var hs := gs + [[w]];
    forall j | 0 < j < |hs|
      ensures BreakBefore(hs, j, maxW)
    {
      assert hs[j - 1] == gs[j - 1];
      if j < |gs| {
        assert hs[j] == gs[j];
        assert BreakBefore(gs, j, maxW);
      } else {
        assert hs[j] == [w];
      }
    }
  }

  /** The loop's layout is greedy. */
  lemma {:induction false} LayoutIsGreedy(ws: seq<string>, maxW: int)
    ensures IsGreedyLayout(ws, Layout(ws, maxW), maxW)
  {
    if ws != [] {
      var front, w := ws[..|ws| - 1], ws[|ws| - 1];
      var gs := Layout(front, maxW);
      LayoutIsGreedy(front, maxW);
      SplitLast(ws);
      if Fits(|gs| == 1, gs[|gs| - 1], w, maxW) {
        ExtendLastFlatten(gs, w);
        ExtendLastWordsFit(gs, w, maxW);
        ExtendLastBreaksForced(gs, w, maxW);
      } else {
        FlattenSnoc(gs, [w]);
        NewLineWordsFit(gs, w, maxW);
        NewLineBreaksForced(gs, w, maxW);
      }
    }
  }

  // Taking the last word away keeps a layout greedy.

  /** The layout without its last word. */
  function DropLastWord(gs: seq<seq<string>>): seq<seq<string>>
    requires gs != [] && gs[|gs| - 1] != []
  {
    var line := gs[|gs| - 1];
    if |gs| > 1 && |line| == 1 then gs[..|gs| - 1]
    else gs[..|gs| - 1] + [line[..|line| - 1]]
  }

  lemma DropLastWordFlatten(gs: seq<seq<string>>)
    requires gs != [] && gs[|gs| - 1] != []
    ensures Flatten(gs) != []
    ensures Flatten(DropLastWord(gs)) == Flatten(gs)[..|Flatten(gs)| - 1]
    ensures Flatten(gs)[|Flatten(gs)| - 1] == gs[|gs| - 1][|gs[|gs| - 1]| - 1]
  {
    var front, line := gs[..|gs| - 1], gs[|gs| - 1];
    var m := |line| - 1;
    SplitLast(gs);
    SplitLast(line);
    FlattenSnoc(front, line);
    if |gs| > 1 && m == 0 {
      assert line == [line[0]];
    } else {
      FlattenSnoc(front, line[..m]);
    }
  }

  lemma DropLastWordWordsFit(gs: seq<seq<string>>, maxW: int)
    requires gs != [] && gs[|gs| - 1] != [] && WordsFit(gs, maxW)
    ensures WordsFit(DropLastWord(gs), maxW)
  {
    var n, hs := |gs|, DropLastWord(gs);
    forall j, k | 0 <= j < |hs| && 0 <= k < |hs[j]| && (j == 0 || 0 < k)
      ensures WordFits(hs, j, k, maxW)
    {
      if j == n - 1 {
        assert hs[j] == gs[j][..|gs[j]| - 1];
        assert hs[j][..k] == gs[j][..k] && hs[j][k] == gs[j][k];
      } else {
        assert hs[j] == gs[j];
      }
      assert WordFits(gs, j, k, maxW);
    }
  }

  lemma DropLastWordBreaksForced(gs: seq<seq<string>>, maxW: int)
    requires gs != [] && gs[|gs| - 1] != [] && BreaksForced(gs, maxW)
    ensures BreaksForced(DropLastWord(gs), maxW)
  {
    var n, hs := |gs|, DropLastWord(gs);
    forall j | 0 < j < |hs|
      ensures BreakBefore(hs, j, maxW)
    {
      assert BreakBefore(gs, j, maxW);
      assert hs[j - 1] == gs[j - 1];
      if j == n - 1 {
        assert hs[j] == gs[j][..|gs[j]| - 1] && |gs[j]| > 1;
        assert hs[j][0] == gs[j][0];
      } else {
        assert hs[j] == gs[j];
      }
    }
  }

  lemma LastLineNonEmpty(ws: seq<string>, gs: seq<seq<string>>, maxW: int)
    requires IsGreedyLayout(ws, gs, maxW) && ws != []
    ensures gs[|gs| - 1] != []
  {
    if |gs| == 1 {
      FlattenSnoc([], gs[0]);
      assert [] + [gs[0]] == gs;
    } else {
      assert BreakBefore(gs, |gs| - 1, maxW);
    }
  }

  lemma NoWordsLayout(gs: seq<seq<string>>, maxW: int)
    requires IsGreedyLayout([], gs, maxW)
    ensures gs == [[]]
  {
    if |gs| > 1 {
      assert BreakBefore(gs, 1, maxW);
      FlattenEmpty(gs, 1);
    }
    FlattenEmpty(gs, 0);
  }

  /** A word that failed the test for the line before starts a new line of the loop's layout. */
  lemma RestoreBreak(ws: seq<string>, gs: seq<seq<string>>, maxW: int)
    requires ws != [] && |gs| > 1 && |gs[|gs| - 1]| == 1 && gs[|gs| - 1][0] == ws[|ws| - 1]
    requires DropLastWord(gs) == Layout(ws[..|ws| - 1], maxW)
    requires !Fits(|gs| == 2, gs[|gs| - 2], ws[|ws| - 1], maxW)
    ensures gs == Layout(ws, maxW)
  {
    assert gs[|gs| - 1] == [ws[|ws| - 1]];
    SplitLast(gs);
  }

  /** A word that passed the test for its line extends the last line of the loop's layout. */
  lemma RestoreExtend(ws: seq<string>, gs: seq<seq<string>>, maxW: int)
    requires ws != [] && gs != [] && gs[|gs| - 1] != [] && !(|gs| > 1 && |gs[|gs| - 1]| == 1)
    requires ws[|ws| - 1] == gs[|gs| - 1][|gs[|gs| - 1]| - 1]
    requires DropLastWord(gs) == Layout(ws[..|ws| - 1], maxW)
    requires var line := gs[|gs| - 1];
      Fits(|gs| == 1, line[..|line| - 1], ws[|ws| - 1], maxW)
    ensures gs == Layout(ws, maxW)
  {
    var n, line := |gs|, gs[|gs| - 1];
    var hs := DropLastWord(gs);
    assert |hs| == n && hs[n - 1] == line[..|line| - 1];
    assert hs[..n - 1] == gs[..n - 1];
    SplitLast(line);
    SplitLast(gs);
  }

  /** Taking the last word away from a greedy layout of `ws` leaves a greedy layout of the rest. */
  lemma DropLastWordGreedy(ws: seq<string>, gs: seq<seq<string>>, maxW: int)
    requires IsGreedyLayout(ws, gs, maxW) && ws != []
    ensures gs[|gs| - 1] != [] && ws[|ws| - 1] == gs[|gs| - 1][|gs[|gs| - 1]| - 1]
    ensures IsGreedyLayout(ws[..|ws| - 1], DropLastWord(gs), maxW)
  {
    LastLineNonEmpty(ws, gs, maxW);
    DropLastWordFlatten(gs);
    DropLastWordWordsFit(gs, maxW);
    DropLastWordBreaksForced(gs, maxW);
  }

  /** If the layout without the last word is the loop's, so is the whole layout. */
  lemma RestoreLastWord(ws: seq<string>, gs: seq<seq<string>>, maxW: int)
    requires WordsFit(gs, maxW) && BreaksForced(gs, maxW)
    requires ws != [] && gs != [] && gs[|gs| - 1] != [] && ws[|ws| - 1] == gs[|gs| - 1][|gs[|gs| - 1]| - 1]
    requires DropLastWord(gs) == Layout(ws[..|ws| - 1], maxW)
    ensures gs == Layout(ws, maxW)
  {
    var n := |gs|;
    if n > 1 && |gs[n - 1]| == 1 {
      LastWordBroke(ws, gs, maxW);
      RestoreBreak(ws, gs, maxW);
    } else {
      LastWordFit(ws, gs, maxW);
      RestoreExtend(ws, gs, maxW);
    }
  }

  /** A last word alone on a later line failed the test for the line before. */
  lemma LastWordBroke(ws: seq<string>, gs: seq<seq<string>>, maxW: int)
    requires BreaksForced(gs, maxW)
    requires ws != [] && |gs| > 1 && |gs[|gs| - 1]| == 1 && ws[|ws| - 1] == gs[|gs| - 1][|gs[|gs| - 1]| - 1]
    ensures gs[|gs| - 1][0] == ws[|ws| - 1]
    ensures !Fits(|gs| == 2, gs[|gs| - 2], ws[|ws| - 1], maxW)
  {
    assert BreakBefore(gs, |gs| - 1, maxW);
  }

  /** Any other last word passed the test for the words before it on its line. */
  lemma LastWordFit(ws: seq<string>, gs: seq<seq<string>>, maxW: int)
    requires WordsFit(gs, maxW)
    requires ws != [] && gs != [] && gs[|gs| - 1] != [] && !(|gs| > 1 && |gs[|gs| - 1]| == 1)
    requires ws[|ws| - 1] == gs[|gs| - 1][|gs[|gs| - 1]| - 1]
    ensures var line := gs[|gs| - 1]; Fits(|gs| == 1, line[..|line| - 1], ws[|ws| - 1], maxW)
  {
    var line := gs[|gs| - 1];
    assert WordFits(gs, |gs| - 1, |line| - 1, maxW);
  }

  /** A greedy layout is the loop's layout. */
  lemma {:induction false} GreedyLayoutIsLayout(ws: seq<string>, gs: seq<seq<string>>, maxW: int)
    requires IsGreedyLayout(ws, gs, maxW)
    ensures gs == Layout(ws, maxW)
    decreases |ws|
  {
    if ws == [] {
      NoWordsLayout(gs, maxW);
    } else {
      DropLastWordGreedy(ws, gs, maxW);
      GreedyLayoutIsLayout(ws[..|ws| - 1], DropLastWord(gs), maxW);
      RestoreLastWord(ws, gs, maxW);
    }
  }

  /**
   * The greedy description pins the wrapping down: a layout of `ws` is
   * greedy exactly when it is the one the loop builds. So a break comes
   * before a word exactly when the source's test fails for it.
   */
  lemma GreedyLayoutUnique(ws: seq<string>, gs: seq<seq<string>>, maxW: int)
    ensures IsGreedyLayout(ws, gs, maxW) <==> gs == Layout(ws, maxW)
  {
    LayoutIsGreedy(ws, maxW);
    if IsGreedyLayout(ws, gs, maxW) {
      GreedyLayoutIsLayout(ws, gs, maxW);
    }
  }

  /** The layout holds the words, in order. */
  lemma LayoutKeepsWords(ws: seq<string>, maxW: int)
    ensures Flatten(Layout(ws, maxW)) == ws
  {
    LayoutIsGreedy(ws, maxW);
  }

  lemma LayoutLinesAreWords(ws: seq<string>, maxW: int, j: nat)
    requires AllWords(ws) && j < |Layout(ws, maxW)|
    ensures AllWords(Layout(ws, maxW)[j])
  {
    LayoutKeepsWords(ws, maxW);
    FlattenAllWords(Layout(ws, maxW), j);
  }

  /** The loop's test on word `i` decides how the layout of the first `i + 1` words extends that of the first `i`. */
  lemma LayoutAppend(ws: seq<string>, i: nat, maxW: int)
    requires i < |ws|
    ensures var gs := Layout(ws[..i], maxW);
      Layout(ws[..i + 1], maxW) ==
        if |CurrentLine(|gs| == 1, gs[|gs| - 1]) + ws[i]| <= maxW then ExtendLast(gs, ws[i]) else gs + [[ws[i]]]
  {
    assert ws[..i + 1][..i] == ws[..i];
    var gs := Layout(ws[..i], maxW);
    TestIsFits(|gs| == 1, gs[|gs| - 1], ws[i], maxW);
  }

  /**
   * One turn of the source's loop when the word passes the test:
   * `current_line` grows by ' ' + word and `lines` stays.
   */
  lemma ExtendLastCurrent(gs: seq<seq<string>>, w: string)
    requires gs != [] && (|gs| > 1 ==> gs[|gs| - 1] != [])
    ensures var hs := ExtendLast(gs, w);
      && Lines(hs[..|hs| - 1]) == Lines(gs[..|gs| - 1])
      && CurrentLine(|hs| == 1, hs[|hs| - 1]) == CurrentLine(|gs| == 1, gs[|gs| - 1]) + " " + w
  {
    var line := gs[|gs| - 1];
    var hs := ExtendLast(gs, w);
    assert hs[..|hs| - 1] == gs[..|gs| - 1];
    assert hs[|hs| - 1] == line + [w];
    if |gs| > 1 {
      JoinSnoc(line, w, " ");
    } else {
      assert (line + [w])[..|line|] == line;
    }
  }

  /**
   * One turn of the source's loop when the word fails the test: the
   * stripped `current_line` is flushed into `lines` and the word starts the
   * new line.
   */
  lemma NewLineCurrent(gs: seq<seq<string>>, w: string)
    requires gs != [] && AllWords(gs[|gs| - 1])
    ensures var hs := gs + [[w]];
      && Lines(hs[..|hs| - 1]) == Lines(gs[..|gs| - 1]) + [Strip(CurrentLine(|gs| == 1, gs[|gs| - 1]))]
      && CurrentLine(|hs| == 1, hs[|hs| - 1]) == w
  {
    StripCurrentLine(|gs| == 1, gs[|gs| - 1]);
    assert (gs + [[w]])[..|gs|] == gs;
  }

  /** The last line flushed after the loop completes the lines of the layout. */
  lemma FlushLast(gs: seq<seq<string>>)
    requires gs != [] && AllWords(gs[|gs| - 1])
    ensures Lines(gs) == Lines(gs[..|gs| - 1]) + [Strip(CurrentLine(|gs| == 1, gs[|gs| - 1]))]
  {
    StripCurrentLine(|gs| == 1, gs[|gs| - 1]);
  }

  /** A word that passes the test joins the current line: the loop's three variables after main.py:20-21. */
  lemma StepJoin(ws: seq<string>, i: nat, maxW: int, gs: seq<seq<string>>)
    requires i < |ws| && gs == Layout(ws[..i], maxW)
    requires |CurrentLine(|gs| == 1, gs[|gs| - 1]) + ws[i]| <= maxW
    ensures var hs := ExtendLast(gs, ws[i]);
      && Layout(ws[..i + 1], maxW) == hs
      && Lines(hs[..|hs| - 1]) == Lines(gs[..|gs| - 1])
      && CurrentLine(|hs| == 1, hs[|hs| - 1]) == CurrentLine(|gs| == 1, gs[|gs| - 1]) + " " + ws[i]
  {
    LayoutAppend(ws, i, maxW);
    ExtendLastCurrent(gs, ws[i]);
  }

  /** A word that fails the test flushes the current line and starts a new one: main.py:22-24. */
  lemma StepBreak(ws: seq<string>, i: nat, maxW: int, gs: seq<seq<string>>)
    requires AllWords(ws) && i < |ws| && gs == Layout(ws[..i], maxW)
    requires |CurrentLine(|gs| == 1, gs[|gs| - 1]) + ws[i]| > maxW
    ensures var hs := gs + [[ws[i]]];
      && Layout(ws[..i + 1], maxW) == hs
      && Lines(hs[..|hs| - 1]) == Lines(gs[..|gs| - 1]) + [Strip(CurrentLine(|gs| == 1, gs[|gs| - 1]))]
      && CurrentLine(|hs| == 1, hs[|hs| - 1]) == ws[i]
  {
    LayoutAppend(ws, i, maxW);
    assert AllWords(ws[..i]);
    LayoutLinesAreWords(ws[..i], maxW, |gs| - 1);
    NewLineCurrent(gs, ws[i]);
  }

  /** After the last word the current line is flushed too: main.py:25. */
  lemma StepFlush(ws: seq<string>, maxW: int, gs: seq<seq<string>>)
    requires AllWords(ws) && gs == Layout(ws, maxW)
    ensures Lines(gs) == Lines(gs[..|gs| - 1]) + [Strip(CurrentLine(|gs| == 1, gs[|gs| - 1]))]
  {
    LayoutLinesAreWords(ws, maxW, |gs| - 1);
    FlushLast(gs);
  }

  /**
   * wrap_text as main.py:15-26 writes it: a loop over the words that grows
   * `current_line` and flushes it, stripped, into `lines`.
   */
  method WrapText(text: string, maxW: int) returns (r: string)
    ensures r == Wrap(text, maxW)
  {
    var words := Split(text);
    var lines: seq<string> := [];
    var currentLine := "";
    ghost var gs: seq<seq<string>> := [[]];
    for i := 0 to |words|
      invariant gs == Layout(words[..i], maxW)
      invariant lines == Lines(gs[..|gs| - 1])
      invariant currentLine == CurrentLine(|gs| == 1, gs[|gs| - 1])
    {
      var word := words[i];
      if |currentLine + word| <= maxW {
        StepJoin(words, i, maxW, gs);
        currentLine := currentLine + " " + word;
        gs := ExtendLast(gs, word);
      } else {
        StepBreak(words, i, maxW, gs);
        lines := lines + [Strip(currentLine)];
        currentLine := word;
        gs := gs + [[word]];
      }
    }
    assert words[..|words|] == words;
    StepFlush(words, maxW, gs);
    lines := lines + [Strip(currentLine)];
    assert lines == WrappedLines(text, maxW);
    r := Join(lines, "\n");
  }

  /** Python's split on the lines joined by newlines gives back the words of the layout. */
  lemma {:induction false} SplitJoinedLines(gs: seq<seq<string>>)
    requires forall j :: 0 <= j < |gs| ==> AllWords(gs[j])
    ensures Split(Join(Lines(gs), "\n")) == Flatten(gs)
  {
    if |gs| == 1 {
      SplitJoin(gs[0], ' ');
      FlattenSnoc([], gs[0]);
      assert [] + [gs[0]] == gs;
    } else if |gs| > 1 {
      var front, last := gs[..|gs| - 1], gs[|gs| - 1];
      SplitJoinedLines(front);
      SplitAtSpace(Join(Lines(front), "\n"), '\n', Join(last, " "));
      SplitJoin(last, ' ');
      FlattenSnoc(front, last);
      SplitLast(gs);
    }
  }

  /** wrap_text keeps every word, in order: splitting the result gives `text.split()`. */
  lemma WrapKeepsWords(text: string, maxW: int)
    ensures Split(Wrap(text, maxW)) == Split(text)
  {
    var ws := Split(text);
    var gs := Layout(ws, maxW);
    forall j | 0 <= j < |gs| ensures AllWords(gs[j]) {
      LayoutLinesAreWords(ws, maxW, j);
    }
    LayoutKeepsWords(ws, maxW);
    SplitJoinedLines(gs);
  }

  // The shape of the wrapped lines.

  /** Words joined by single spaces hold no whitespace other than those spaces. */
  lemma {:induction false} JoinedWordsSpaces(ws: seq<string>, i: nat)
    requires AllWords(ws) && i < |Join(ws, " ")|
    ensures IsSpace(Join(ws, " ")[i]) ==> Join(ws, " ")[i] == ' '
  {
    if |ws| > 1 {
      var front := ws[..|ws| - 1];
      var j := Join(front, " ");
      assert Join(ws, " ") == j + " " + ws[|ws| - 1];
      if i < |j| {
        assert AllWords(front);
        JoinedWordsSpaces(front, i);
        assert Join(ws, " ")[i] == j[i];
      } else if i > |j| {
        assert Join(ws, " ")[i] == ws[|ws| - 1][i - |j| - 1];
      }
    }
  }

  /** The first line's last word passed the first line's test, so the whole line fits in `maxW`. */
  lemma FirstLineBound(line: seq<string>, maxW: int)
    requires line != [] && Fits(true, line[..|line| - 1], line[|line| - 1], maxW)
    ensures |Join(line, " ")| <= maxW
  {
    if |line| == 1 {
      assert line[..0] == [];
    }
  }

  /**
   * A later line's last word passed a later line's test, which leaves out the
   * separating space, so a line of two or more words may reach `maxW + 1`.
   */
  lemma LaterLineBound(line: seq<string>, maxW: int)
    requires |line| >= 2 && Fits(false, line[..|line| - 1], line[|line| - 1], maxW)
    ensures |Join(line, " ")| <= maxW + 1
  {
  }

  /** In a greedy layout the first line is empty exactly when there are no words or the first word alone fails the test. */
  lemma GreedyFirstLine(ws: seq<string>, gs: seq<seq<string>>, maxW: int)
    requires IsGreedyLayout(ws, gs, maxW) && AllWords(ws)
    ensures Join(gs[0], " ") == "" <==> ws == [] || |ws[0]| > maxW
    ensures Join(gs[0], " ") != "" ==> |Join(gs[0], " ")| <= maxW
  {
    FlattenCons(gs);
    if gs[0] == [] {
      if ws != [] {
        assert BreakBefore(gs, 1, maxW);
        FlattenCons(gs[1..]);
        assert ws[0] == gs[1][0];
      }
    } else {
      assert ws[0] == gs[0][0];
      assert WordFits(gs, 0, 0, maxW);
      assert gs[0][..0] == [];
      FlattenAllWords(gs, 0);
      JoinWordsEnds(gs[0], " ");
      assert WordFits(gs, 0, |gs[0]| - 1, maxW);
      FirstLineBound(gs[0], maxW);
    }
  }

  /** In a greedy layout every later line holds a word, and one of two or more words is at most `maxW + 1` long. */
  lemma GreedyLaterLine(ws: seq<string>, gs: seq<seq<string>>, maxW: int, j: nat)
    requires IsGreedyLayout(ws, gs, maxW) && AllWords(ws) && 0 < j < |gs|
    ensures Join(gs[j], " ") != ""
    ensures |gs[j]| >= 2 ==> |Join(gs[j], " ")| <= maxW + 1
  {
    assert BreakBefore(gs, j, maxW);
    FlattenAllWords(gs, j);
    JoinWordsEnds(gs[j], " ");
    if |gs[j]| >= 2 {
      assert WordFits(gs, j, |gs[j]| - 1, maxW);
      LaterLineBound(gs[j], maxW);
    }
  }

  /**
   * The first line of wrap_text's result is empty exactly when the text has
   * no words or its first word is longer than `max_w`; otherwise it is at
   * most `max_w` long. A text without words wraps to ''.
   */
  lemma WrapFirstLine(text: string, maxW: int)
    ensures var ws, ls := Split(text), WrappedLines(text, maxW);
      && |ls| >= 1
      && (ls[0] == "" <==> ws == [] || |ws[0]| > maxW)
      && (ls[0] != "" ==> |ls[0]| <= maxW)
    ensures Split(text) == [] ==> Wrap(text, maxW) == ""
  {
    var ws := Split(text);
    LayoutIsGreedy(ws, maxW);
    var gs := Layout(ws, maxW);
    GreedyFirstLine(ws, gs, maxW);
    LinesAt(gs, 0);
  }

  /**
   * Every later line of wrap_text's result holds at least one word, and a
   * later line of two or more words is at most `max_w + 1` long: the test
   * does not count the space that joins the word to the line.
   */
  lemma WrapLaterLines(text: string, maxW: int, j: nat)
    requires 0 < j < |WrappedLines(text, maxW)|
    ensures var l := WrappedLines(text, maxW)[j];
      l != "" && (|Split(l)| >= 2 ==> |l| <= maxW + 1)
  {
    var ws := Split(text);
    LayoutIsGreedy(ws, maxW);
    var gs := Layout(ws, maxW);
    GreedyLaterLine(ws, gs, maxW, j);
    LinesAt(gs, j);
    FlattenAllWords(gs, j);
    SplitJoin(gs[j], ' ');
  }

  /** Each line of wrap_text's result is its own words joined by single spaces, so no line holds a newline. */
  lemma WrapLineShape(text: string, maxW: int, j: nat)
    requires j < |WrappedLines(text, maxW)|
    ensures var l := WrappedLines(text, maxW)[j];
      && l == Join(Split(l), " ")
      && forall i :: 0 <= i < |l| && IsSpace(l[i]) ==> l[i] == ' '
  {
    var ws := Split(text);
    var gs := Layout(ws, maxW);
    LayoutLinesAreWords(ws, maxW, j);
    LinesAt(gs, j);
    SplitJoin(gs[j], ' ');
    forall i | 0 <= i < |Join(gs[j], " ")| && IsSpace(Join(gs[j], " ")[i])
      ensures Join(gs[j], " ")[i] == ' '
    {
      JoinedWordsSpaces(gs[j], i);
    }
  }
}
