/**
 * The three Python string built-ins that wrap_text relies on, on `string`
 * (a sequence of Unicode scalar values, as a Python `str` is):
 * `s.split()`, `s.strip()` (both without arguments) and `sep.join(parts)`.
 */
module Strings {

  /** The characters for which Python's `str.isspace()` holds; `split()` and `strip()` break and trim on them. */
  predicate IsSpace(c: char) {
    c == ' ' || c == '\t' || c == '\n' || c == '\r' || c == '\U{000B}' || c == '\U{000C}'
    || ('\U{001C}' <= c <= '\U{001F}') || c == '\U{0085}' || c == '\U{00A0}' || c == '\U{1680}'
    || ('\U{2000}' <= c <= '\U{200A}') || c == '\U{2028}' || c == '\U{2029}' || c == '\U{202F}'
    || c == '\U{205F}' || c == '\U{3000}'
  }

  /** A word as `split()` yields it: non-empty and free of whitespace. */
  predicate IsWord(w: string) {
    |w| > 0 && forall i :: 0 <= i < |w| ==> !IsSpace(w[i])
  }

  predicate AllWords(ws: seq<string>) {
    forall i :: 0 <= i < |ws| ==> IsWord(ws[i])
  }

  /** The length of the run of non-whitespace characters that `s` starts with. */
  function WordLength(s: string): (n: nat)
    ensures n <= |s|
    ensures forall i :: 0 <= i < n ==> !IsSpace(s[i])
    ensures n == |s| || IsSpace(s[n])
  {
    if s == [] || IsSpace(s[0]) then 0 else 1 + WordLength(s[1..])
  }

  /** `s.split()`: the maximal runs of non-whitespace characters of `s`, in order. */
  function Split(s: string): (ws: seq<string>)
    ensures AllWords(ws)
    ensures |ws| <= |s|
    decreases |s|
  {
    if s == [] then []
    else if IsSpace(s[0]) then Split(s[1..])
    else
      var n := WordLength(s);
      [s[..n]] + Split(s[n..])
  }

  /** `sep.join(parts)`. */
  function Join(parts: seq<string>, sep: string): string
  {
    if |parts| == 0 then ""
    else if |parts| == 1 then parts[0]
    else Join(parts[..|parts| - 1], sep) + sep + parts[|parts| - 1]
  }

  /** `s.lstrip()`: `s` without its leading whitespace. */
  function StripLeft(s: string): (r: string)
    ensures |r| <= |s| && r == s[|s| - |r|..]
    ensures forall i :: 0 <= i < |s| - |r| ==> IsSpace(s[i])
    ensures r == [] || !IsSpace(r[0])
  {
    if s != [] && IsSpace(s[0]) then StripLeft(s[1..]) else s
  }

  /** `s.rstrip()`: `s` without its trailing whitespace. */
  function StripRight(s: string): (r: string)
    ensures |r| <= |s| && r == s[..|r|]
    ensures forall i :: |r| <= i < |s| ==> IsSpace(s[i])
    ensures r == [] || !IsSpace(r[|r| - 1])
  {
    if s != [] && IsSpace(s[|s| - 1]) then StripRight(s[..|s| - 1]) else s
  }

  /** `s.strip()`. */
  function Strip(s: string): string
  {
    StripRight(StripLeft(s))
  }

  /** Everything after the word `s` starts with is left for the rest of the split. */
  lemma {:induction false} WordLengthAppend(a: string, t: string)
    requires WordLength(a) < |a| || (t != [] && IsSpace(t[0]))
    ensures WordLength(a + t) == WordLength(a)
  {
    if a == [] {
      assert (a + t)[0] == t[0];
    } else if IsSpace(a[0]) {
      assert (a + t)[0] == a[0];
    } else {
      assert (a + t)[0] == a[0];
      assert (a + t)[1..] == a[1..] + t;
      WordLengthAppend(a[1..], t);
    }
  }

  /** A single whitespace character splits the string into two independently split halves. */
  lemma SplitAtSpace(a: string, c: char, b: string)
    requires IsSpace(c)
    ensures Split(a + [c] + b) == Split(a) + Split(b)
  {
    assert a + [c] + b == a + ([c] + b);
    assert ([c] + b)[1..] == b;
    SplitBeforeSpace(a, [c] + b);
  }

  /** Splitting stops a word at whitespace: what precedes `t` splits on its own. */
  lemma {:induction false} SplitBeforeSpace(a: string, t: string)
    requires t != [] && IsSpace(t[0])
    ensures Split(a + t) == Split(a) + Split(t[1..])
    decreases |a|
  {
    if a == [] {
      assert a + t == t;
    } else if IsSpace(a[0]) {
      assert (a + t)[0] == a[0] && (a + t)[1..] == a[1..] + t;
      SplitBeforeSpace(a[1..], t);
    } else {
      var n := WordLength(a);
      SplitBeforeSpace(a[n..], t);
      SplitOffWord(a, t);
      SplitFirstWord(a);
      Regroup(Split(a + t), a[..n], Split(a[n..] + t), Split(a[n..]), Split(t[1..]));
    }
  }

  /** `[w] + (u + v)` regrouped. */
  lemma Regroup(x: seq<string>, w: string, y: seq<string>, u: seq<string>, v: seq<string>)
    requires x == [w] + y && y == u + v
    ensures x == ([w] + u) + v
  {
  }

  /** The word `a` starts with ends before `t` when `t` starts with whitespace. */
  lemma SplitOffWord(a: string, t: string)
    requires a != [] && !IsSpace(a[0]) && t != [] && IsSpace(t[0])
    ensures Split(a + t) == [a[..WordLength(a)]] + Split(a[WordLength(a)..] + t)
  {
    WordLengthAppend(a, t);
    ConcatSlices(a, t, WordLength(a));
    SplitFirstWord(a + t);
  }

  /** A string that starts with a word splits into that word and the split of the rest. */
  lemma SplitFirstWord(s: string)
    requires s != [] && !IsSpace(s[0])
    ensures Split(s) == [s[..WordLength(s)]] + Split(s[WordLength(s)..])
  {
  }

  /** Cutting `a + t` within `a`. */
  lemma ConcatSlices(a: string, t: string, n: nat)
    requires n <= |a|
    ensures (a + t)[..n] == a[..n] && (a + t)[n..] == a[n..] + t
  {
  }

  /** A word splits into itself. */
  lemma SplitWord(w: string)
    requires IsWord(w)
    ensures Split(w) == [w]
  {
    assert w[..|w|] == w;
    assert w[|w|..] == [];
  }

  /** Splitting undoes joining words with one whitespace character. */
  lemma {:induction false} SplitJoin(ws: seq<string>, c: char)
    requires AllWords(ws) && IsSpace(c)
    ensures Split(Join(ws, [c])) == ws
  {
    if |ws| == 0 {
    } else if |ws| == 1 {
      SplitWord(ws[0]);
    } else {
      var front, last := ws[..|ws| - 1], ws[|ws| - 1];
      assert AllWords(front);
      SplitJoin(front, c);
      SplitAtSpace(Join(front, [c]), c, last);
      SplitWord(last);
      assert front + [last] == ws;
    }
  }

  /** Joined words start with the first word's first character and end with the last word's last one. */
  lemma {:induction false} JoinWordsEnds(ws: seq<string>, sep: string)
    requires AllWords(ws) && ws != []
    ensures |Join(ws, sep)| > 0
    ensures Join(ws, sep)[0] == ws[0][0]
    ensures Join(ws, sep)[|Join(ws, sep)| - 1] == ws[|ws| - 1][|ws[|ws| - 1]| - 1]
  {
    if |ws| > 1 {
      var front := ws[..|ws| - 1];
      assert AllWords(front);
      JoinWordsEnds(front, sep);
      assert front[0] == ws[0];
    }
  }

  /** Joining one more part adds the separator and the part. */
  lemma JoinSnoc(ws: seq<string>, w: string, sep: string)
    requires ws != []
    ensures Join(ws + [w], sep) == Join(ws, sep) + sep + w
  {
    assert (ws + [w])[..|ws|] == ws;
  }

  /** Joining a part in front of a non-empty list adds that part and the separator. */
  lemma {:induction false} JoinCons(w: string, ws: seq<string>, sep: string)
    requires ws != []
    ensures Join([w] + ws, sep) == w + sep + Join(ws, sep)
  {
    var init := ws[..|ws| - 1];
    var last := ws[|ws| - 1];
    assert ws == init + [last];
    assert [w] + ws == ([w] + init) + [last];
    JoinSnoc([w] + init, last, sep);
    if init == [] {
      assert Join([w], sep) == w;
    } else {
      JoinCons(w, init, sep);
      JoinSnoc(init, last, sep);
    }
  }

  /** Words joined by spaces, with or without one leading space, strip to the joined words. */
  lemma StripJoinedWords(ws: seq<string>)
    requires AllWords(ws)
    ensures Strip(Join(ws, " ")) == Join(ws, " ")
    ensures Strip(" " + Join(ws, " ")) == Join(ws, " ")
  {
    var j := Join(ws, " ");
    if ws != [] {
      JoinWordsEnds(ws, " ");
      StripTrimmed(j);
      StripOneSpace(j);
    } else {
      assert j == "";
      assert StripLeft(" ") == StripLeft(""[..]);
    }
  }

  /** A string that neither starts nor ends with white space is its own strip. */
  lemma StripTrimmed(j: string)
    requires j != [] && !IsSpace(j[0]) && !IsSpace(j[|j| - 1])
    ensures StripLeft(j) == j && StripRight(j) == j && Strip(j) == j
  {
  }

  /** Stripping removes one leading blank in front of such a string. */
  lemma StripOneSpace(j: string)
    requires j != [] && !IsSpace(j[0]) && !IsSpace(j[|j| - 1])
    ensures Strip(" " + j) == j
  {
    assert (" " + j)[1..] == j;
    StripTrimmed(j);
  }
}
