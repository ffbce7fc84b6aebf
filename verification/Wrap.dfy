/** Wrapping a paragraph into lines. */
module Wrap {
  /** A character, by its number. */
  type Char = nat

  type Word = seq<Char>

  const NL: Char := 10
  const SPACE: Char := 32

  /** What the text and the options determine. */
  datatype Style = Style(
    indent: seq<Char>,
    indentWidth: nat,
    textWidth: nat,
    width: Char -> nat,
    breakable: Char -> bool)
  {
    predicate Valid() {
      && breakable(NL) && breakable(SPACE)
      && (forall i :: 0 <= i < |indent| ==> breakable(indent[i]))
      && (indentWidth == 0 ==> indent == [])
    }

    function WidthOf(w: Word): nat {
      if w == [] then 0 else WidthOf(w[..|w| - 1]) + width(w[|w| - 1])
    }

    /** The width of a line with these words. */
    function LineWidth(line: seq<Word>): nat {
      if line == [] then indentWidth
      else LineWidth(line[..|line| - 1]) + (if |line| > 1 then 1 else 0) + WidthOf(line[|line| - 1])
    }

    /** A line is wide enough for its words unless there is only one. */
    predicate Fits(line: seq<Word>) {
      line != [] && (|line| == 1 || LineWidth(line) <= textWidth)
    }

    /** The lines with one more word. A word behind nothing visible is joined to it. */
    function With(lines: seq<seq<Word>>, w: Word): seq<seq<Word>>
      requires forall i :: 0 <= i < |lines| ==> lines[i] != []
    {
      if lines == [] then [[w]]
      else
        var n := |lines| - 1;
        var last := lines[n];
        var k := |last| - 1;
        if LineWidth(last) == 0 then lines[..n] + [last[..k] + [last[k] + w]]
        else if LineWidth(last) + 1 + WidthOf(w) > textWidth then lines + [[w]]
        else lines[..n] + [last + [w]]
    }

    /** All words in lines, each in the first line that has room for it. */
    function Filled(words: seq<Word>): (lines: seq<seq<Word>>)
      ensures forall i :: 0 <= i < |lines| ==> lines[i] != []
      ensures lines == [] <==> words == []
    {
      if words == [] then [] else With(Filled(words[..|words| - 1]), words[|words| - 1])
    }

    function RenderLine(line: seq<Word>): seq<Char> {
      if line == [] then indent
      else RenderLine(line[..|line| - 1]) + (if |line| > 1 then [SPACE] else []) + line[|line| - 1]
    }

    function Render(lines: seq<seq<Word>>): seq<Char> {
      if lines == [] then []
      else Render(lines[..|lines| - 1]) + (if |lines| > 1 then [NL] else []) + RenderLine(lines[|lines| - 1])
    }

    /** Where the word at the beginning of `text` ends. */
    function WordEnd(text: seq<Char>): (n: nat)
      ensures n <= |text|
      ensures forall i :: 0 <= i < n ==> !breakable(text[i])
      ensures n < |text| ==> breakable(text[n])
    {
      if text == [] || breakable(text[0]) then 0 else 1 + WordEnd(text[1..])
    }

    /** The words of a text. */
    function Words(text: seq<Char>): (words: seq<Word>)
      decreases |text|
    {
      if text == [] then []
      else if breakable(text[0]) then Words(text[1..])
      else [text[..WordEnd(text)]] + Words(text[WordEnd(text)..])
    }
  }

  function Flat(lines: seq<seq<Word>>): seq<Word> {
    if lines == [] then [] else Flat(lines[..|lines| - 1]) + lines[|lines| - 1]
  }

  // The lines are as few as they can be.

  /** A way to put words into lines that are not too wide. */
  predicate Layout(s: Style, lines: seq<seq<Word>>, words: seq<Word>) {
    Flat(lines) == words && forall i :: 0 <= i < |lines| ==> s.Fits(lines[i])
  }

  /** Words that can be seen, or are put behind an indentation. */
  predicate Visible(s: Style, words: seq<Word>) {
    s.indentWidth > 0 || forall i :: 0 <= i < |words| ==> s.WidthOf(words[i]) > 0
  }

  lemma {:induction false} VisibleLine(s: Style, line: seq<Word>)
    requires line != [] && Visible(s, line)
    ensures s.LineWidth(line) > 0
  {
    if |line| > 1 {
      VisibleLine(s, line[..|line| - 1]);
    }
  }

  lemma FlatSnoc(lines: seq<seq<Word>>, line: seq<Word>)
    ensures Flat(lines + [line]) == Flat(lines) + line
  {
    assert (lines + [line])[..|lines|] == lines;
  }

  /** Wrapping keeps the words and makes no line too wide. */
  lemma {:induction false} FilledIsLayout(s: Style, words: seq<Word>)
    requires Visible(s, words)
    ensures Layout(s, s.Filled(words), words)
  {
    if words != [] {
      var n := |words| - 1;
      FilledIsLayout(s, words[..n]);
      assert words == words[..n] + [words[n]];
      OneMoreWord(s, s.Filled(words[..n]), words[..n], words[n]);
    } else {
      assert s.Filled(words) == [];
    }
  }

  lemma OneMoreWord(s: Style, lines: seq<seq<Word>>, words: seq<Word>, w: Word)
    requires Layout(s, lines, words) && Visible(s, words + [w])
    ensures Layout(s, s.With(lines, w), words + [w])
  {
    if lines == [] {
      FlatSnoc([], [w]);
      assert [] + [[w]] == [[w]];
    } else {
      var n := |lines| - 1;
      var last := lines[n];
      assert lines == lines[..n] + [last];
      FlatSnoc(lines[..n], last);
      FlatSnoc(lines[..n], last + [w]);
      FlatSnoc(lines, [w]);
      LastIsVisible(s, Flat(lines[..n]), last, w);
      VisibleLine(s, last);
      assert (last + [w])[..|last|] == last;
    }
  }

  lemma LastIsVisible(s: Style, front: seq<Word>, last: seq<Word>, w: Word)
    requires Visible(s, front + last + [w])
    ensures Visible(s, last)
  {
    if s.indentWidth == 0 {
      forall i | 0 <= i < |last| ensures s.WidthOf(last[i]) > 0 {
        assert (front + last + [w])[|front| + i] == last[i];
      }
    }
  }

  /** A line with less words at its beginning is less wide. */
  lemma {:induction false} ShorterIsNarrower(s: Style, line: seq<Word>, k: nat)
    requires k < |line|
    ensures s.LineWidth(line[k..]) <= s.LineWidth(line)
  {
    var n := |line| - 1;
    if k == 0 {
      assert line[0..] == line;
    } else if k == n {
      assert line[k..] == [line[n]] && line[k..][..0] == [];
      IndentIsLeast(s, line[..n]);
    } else {
      ShorterIsNarrower(s, line[..n], k);
      assert line[k..][..n - k] == line[..n][k..];
    }
  }

  lemma {:induction false} IndentIsLeast(s: Style, line: seq<Word>)
    ensures s.LineWidth(line) >= s.indentWidth
  {
    if line != [] {
      IndentIsLeast(s, line[..|line| - 1]);
    }
  }

  /** The filled lines are never behind: as many lines, and no more words in the last. */
  predicate Ahead(filled: seq<seq<Word>>, other: seq<seq<Word>>) {
    |filled| < |other|
    || (|filled| == |other| && (filled != [] ==> |filled[|filled| - 1]| <= |other[|other| - 1]|))
  }

  /** A layout without its last word. */
  function Without(lines: seq<seq<Word>>): seq<seq<Word>>
    requires lines != []
  {
    var n := |lines| - 1;
    if |lines[n]| <= 1 then lines[..n] else lines[..n] + [lines[n][..|lines[n]| - 1]]
  }

  lemma WithoutIsLayout(s: Style, lines: seq<seq<Word>>, words: seq<Word>)
    requires words != [] && Layout(s, lines, words)
    ensures lines != [] && Layout(s, Without(lines), words[..|words| - 1])
    ensures var last := lines[|lines| - 1]; last[|last| - 1] == words[|words| - 1]
  {
    var n := |lines| - 1;
    var last := lines[n];
    var k := |last| - 1;
    assert lines == lines[..n] + [last];
    FlatSnoc(lines[..n], last);
    FlatSnoc(lines[..n], last[..k]);
    if k > 0 {
      var o := Without(lines);
      forall i | 0 <= i < |o| ensures s.Fits(o[i]) {
        if i < n {
          assert o[i] == lines[i];
        } else {
          assert o[i] == last[..k];
        }
      }
    } else {
      assert forall i :: 0 <= i < n ==> Without(lines)[i] == lines[i];
    }
  }

  lemma StaysAhead(s: Style, filled: seq<seq<Word>>, other: seq<seq<Word>>, words: seq<Word>)
    requires words != [] && Visible(s, words)
    requires Layout(s, filled, words[..|words| - 1]) && Layout(s, other, words)
    requires other != [] && Ahead(filled, Without(other))
    requires var last := other[|other| - 1]; last[|last| - 1] == words[|words| - 1]
    ensures Ahead(s.With(filled, words[|words| - 1]), other)
  {
    hide Style.LineWidth, Style.WidthOf, Style.RenderLine, Visible, Flat;
    var w := words[|words| - 1];
    var n := |other| - 1;
    var last := other[n];
    if filled != [] && |filled| == |other| && |last| > 1 {
      var mine := filled[n];
      LastWords(filled, words[..|words| - 1]);
      LastWords(other, words);
      var k := |last| - 1 - |mine|;
      assert last[k..] == mine + [w];
      ShorterIsNarrower(s, last, k);
      LineSnoc(s, mine, w);
    }
  }

  /** The last line has the last words. */
  lemma LastWords(lines: seq<seq<Word>>, words: seq<Word>)
    requires lines != [] && Flat(lines) == words
    ensures var last := lines[|lines| - 1]; |last| <= |words| && last == words[|words| - |last|..]
  {
    assert Flat(lines) == Flat(lines[..|lines| - 1]) + lines[|lines| - 1];
  }

  /** No other layout of the same words has fewer lines. */
  lemma {:induction false} FewestLines(s: Style, words: seq<Word>, other: seq<seq<Word>>)
    requires Visible(s, words) && Layout(s, other, words)
    ensures Ahead(s.Filled(words), other)
    ensures |s.Filled(words)| <= |other|
    decreases |words|
  {
    if words != [] {
      var n := |words| - 1;
      WithoutIsLayout(s, other, words);
      FewestLines(s, words[..n], Without(other));
      FilledIsLayout(s, words[..n]);
      StaysAhead(s, s.Filled(words[..n]), other, words);
    }
  }

  // The words of the wrapped text are those of the text.

  predicate IsWord(s: Style, w: Word) {
    w != [] && forall i :: 0 <= i < |w| ==> !s.breakable(w[i])
  }

  predicate AreWords(s: Style, words: seq<Word>) {
    forall i :: 0 <= i < |words| ==> IsWord(s, words[i])
  }

  lemma {:induction false} WordsApart(s: Style, a: seq<Char>, c: Char, b: seq<Char>)
    requires s.breakable(c)
    ensures s.Words(a + [c] + b) == s.Words(a) + s.Words(b)
    decreases |a|
  {
    var t := a + [c] + b;
    if a == [] {
      assert t[0] == c && t[1..] == b;
    } else if s.breakable(a[0]) {
      assert t[0] == a[0] && t[1..] == a[1..] + [c] + b;
      WordsApart(s, a[1..], c, b);
    } else {
      var n := s.WordEnd(a);
      EndBefore(s, a, c, b);
      assert n > 0 && t[0] == a[0] && t[..n] == a[..n] && t[n..] == a[n..] + [c] + b;
      hide Style.WordEnd;
      WordsApart(s, a[n..], c, b);
      assert [a[..n]] + s.Words(a[n..]) + s.Words(b) == [a[..n]] + (s.Words(a[n..]) + s.Words(b));
    }
  }

  lemma {:induction false} EndBefore(s: Style, a: seq<Char>, c: Char, b: seq<Char>)
    requires s.breakable(c)
    ensures s.WordEnd(a + [c] + b) == s.WordEnd(a)
  {
    var t := a + [c] + b;
    if a != [] && !s.breakable(a[0]) {
      assert t[0] == a[0] && t[1..] == a[1..] + [c] + b;
      EndBefore(s, a[1..], c, b);
    }
  }

  lemma {:induction false} WordEndOf(s: Style, w: Word)
    requires forall i :: 0 <= i < |w| ==> !s.breakable(w[i])
    ensures s.WordEnd(w) == |w|
  {
    if w != [] {
      WordEndOf(s, w[1..]);
    }
  }

  lemma {:induction false} IndentedWord(s: Style, indent: seq<Char>, w: Word)
    requires IsWord(s, w) && forall i :: 0 <= i < |indent| ==> s.breakable(indent[i])
    ensures s.Words(indent + w) == [w]
    decreases |indent|
  {
    if indent == [] {
      assert indent + w == w;
      WordEndOf(s, w);
      assert w[..|w|] == w && w[|w|..] == [];
    } else {
      assert (indent + w)[0] == indent[0] && (indent + w)[1..] == indent[1..] + w;
      IndentedWord(s, indent[1..], w);
    }
  }

  lemma {:induction false} WordsOfLine(s: Style, line: seq<Word>)
    requires s.Valid() && line != [] && forall i :: 0 <= i < |line| ==> IsWord(s, line[i])
    ensures s.Words(s.RenderLine(line)) == line
  {
    var n := |line| - 1;
    assert line == line[..n] + [line[n]];
    if n == 0 {
      assert s.RenderLine(line) == s.indent + [] + line[0] == s.indent + line[0];
      IndentedWord(s, s.indent, line[0]);
    } else {
      WordsOfLine(s, line[..n]);
      WordsApart(s, s.RenderLine(line[..n]), SPACE, line[n]);
      IndentedWord(s, [], line[n]);
      assert [] + line[n] == line[n];
    }
  }

  lemma {:induction false} WordsOfLines(s: Style, lines: seq<seq<Word>>)
    requires s.Valid() && AreWords(s, Flat(lines)) && forall i :: 0 <= i < |lines| ==> lines[i] != []
    ensures s.Words(s.Render(lines)) == Flat(lines)
  {
    if lines != [] {
      var n := |lines| - 1;
      var front, last := Flat(lines[..n]), lines[n];
      assert Flat(lines) == front + last;
      assert forall i :: 0 <= i < |front| ==> front[i] == Flat(lines)[i];
      assert forall i :: 0 <= i < |last| ==> last[i] == Flat(lines)[|front| + i];
      WordsOfLine(s, last);
      WordsOfLines(s, lines[..n]);
      if n > 0 {
        WordsApart(s, s.Render(lines[..n]), NL, s.RenderLine(last));
      } else {
        assert s.Render(lines) == [] + [] + s.RenderLine(last) == s.RenderLine(last);
        assert [] + last == last;
      }
    }
  }

  lemma {:induction false} WordsAreWords(s: Style, text: seq<Char>)
    ensures AreWords(s, s.Words(text))
    decreases |text|
  {
    if text != [] {
      if s.breakable(text[0]) {
        WordsAreWords(s, text[1..]);
      } else {
        WordsAreWords(s, text[s.WordEnd(text)..]);
      }
    }
  }

  /** A text after wrapping. */
  function Wrapped(s: Style, text: seq<Char>): seq<Char> {
    var words := s.Words(text);
    if words == [] then [] else s.Render(s.Filled(words)) + [NL]
  }

  /** Without an indentation, a word that cannot be seen is joined to the next one. */
  lemma JoinsInvisible(s: Style, a: Word, b: Word)
    requires s.indentWidth == 0 && s.WidthOf(a) == 0
    ensures s.Filled([a, b]) == [[a + b]] && !Layout(s, s.Filled([a, b]), [a, b])
  {
    assert [a, b][..1] == [a] && [a][..0] == [];
    assert s.Filled([a]) == [[a]];
    assert s.LineWidth([a]) == 0;
    assert [[a]][..0] == [] && [] + [a + b] == [a + b] && [] + [[a + b]] == [[a + b]];
    assert s.With([[a]], b) == [[a + b]];
    FlatSnoc([], [a + b]);
  }

  /** Some word stands alone in a line without any width and is not the last one. */
  ghost predicate Joins(s: Style, words: seq<Word>) {
    exists i :: 0 < i < |words| && LastWidth(s, words[..i]) == 0
  }

  function LastWidth(s: Style, words: seq<Word>): nat
    requires words != []
  {
    var lines := s.Filled(words);
    s.LineWidth(lines[|lines| - 1])
  }

  /** Words are joined exactly then, so that there are fewer of them. */
  lemma {:induction false} WordsKeptExactly(s: Style, words: seq<Word>)
    ensures |Flat(s.Filled(words))| <= |words|
    ensures !Joins(s, words) <==> |Flat(s.Filled(words))| == |words|
    ensures !Joins(s, words) ==> Flat(s.Filled(words)) == words
  {
    if words != [] {
      var n := |words| - 1;
      var w, front := words[n], words[..n];
      assert words == front + [w];
      WordsKeptExactly(s, front);
      JoinsLater(s, words);
      WithFlat(s, s.Filled(front), w);
    }
  }

  lemma JoinsLater(s: Style, words: seq<Word>)
    requires words != []
    ensures var n := |words| - 1;
      Joins(s, words) <==> Joins(s, words[..n]) || (n > 0 && LastWidth(s, words[..n]) == 0)
  {
    hide LastWidth;
    var n := |words| - 1;
    assert forall i :: 0 < i < n ==> words[..n][..i] == words[..i];
    if Joins(s, words[..n]) {
      var i :| 0 < i < n && LastWidth(s, words[..n][..i]) == 0;
      assert LastWidth(s, words[..i]) == 0;
    }
    if Joins(s, words) {
      var i :| 0 < i < |words| && LastWidth(s, words[..i]) == 0;
      if i < n {
        assert LastWidth(s, words[..n][..i]) == 0;
      }
    }
  }

  lemma WithFlat(s: Style, lines: seq<seq<Word>>, w: Word)
    requires forall i :: 0 <= i < |lines| ==> lines[i] != []
    ensures var flat := Flat(s.With(lines, w));
      if lines != [] && s.LineWidth(lines[|lines| - 1]) == 0 then |flat| == |Flat(lines)|
      else flat == Flat(lines) + [w]
  {
    if lines == [] {
      FlatSnoc([], [w]);
      assert [] + [[w]] == [[w]];
    } else {
      var n := |lines| - 1;
      var last := lines[n];
      var k := |last| - 1;
      assert lines == lines[..n] + [last];
      FlatSnoc(lines[..n], last);
      FlatSnoc(lines[..n], last + [w]);
      FlatSnoc(lines[..n], last[..k] + [last[k] + w]);
      FlatSnoc(lines, [w]);
    }
  }

  lemma FilledSnoc(s: Style, words: seq<Word>, w: Word)
    ensures s.Filled(words + [w]) == s.With(s.Filled(words), w)
  {
    assert (words + [w])[..|words|] == words;
  }

  lemma WithWords(s: Style, lines: seq<seq<Word>>, w: Word)
    requires (forall i :: 0 <= i < |lines| ==> lines[i] != []) && IsWord(s, w) && AreWords(s, Flat(lines))
    ensures AreWords(s, Flat(s.With(lines, w)))
  {
    hide Style.LineWidth, Style.WidthOf, AreWords, IsWord, Flat;
    if lines != [] && s.LineWidth(lines[|lines| - 1]) == 0 {
      var n := |lines| - 1;
      var front, last := lines[..n], lines[n];
      assert lines == front + [last];
      JoinedWords(s, front, last, w);
    } else {
      hide Style.With;
      WithFlat(s, lines, w);
      WordsSnoc(s, Flat(lines), w);
    }
  }

  lemma JoinedWords(s: Style, front: seq<seq<Word>>, last: seq<Word>, w: Word)
    requires last != [] && AreWords(s, Flat(front + [last])) && IsWord(s, w)
    ensures var k := |last| - 1; AreWords(s, Flat(front + [last[..k] + [last[k] + w]]))
  {
    hide AreWords, IsWord, Flat;
    var k := |last| - 1;
    var a := Flat(front) + last[..k];
    FlatSnoc(front, last);
    FlatSnoc(front, last[..k] + [last[k] + w]);
    assert Flat(front) + last == a + [last[k]];
    assert Flat(front) + (last[..k] + [last[k] + w]) == a + [last[k] + w];
    WordsSnoc(s, a, last[k]);
    WordsSnoc(s, a, last[k] + w);
    JoinedIsWord(s, last[k], w);
  }

  lemma WordsSnoc(s: Style, words: seq<Word>, w: Word)
    ensures AreWords(s, words + [w]) <==> AreWords(s, words) && IsWord(s, w)
  {
    hide IsWord;
    if AreWords(s, words + [w]) {
      assert (words + [w])[|words|] == w;
      assert forall i :: 0 <= i < |words| ==> words[i] == (words + [w])[i];
    }
  }

  lemma JoinedIsWord(s: Style, u: Word, w: Word)
    requires IsWord(s, u) && IsWord(s, w)
    ensures IsWord(s, u + w)
  {
  }

  lemma {:induction false} FilledWords(s: Style, words: seq<Word>)
    requires AreWords(s, words)
    ensures AreWords(s, Flat(s.Filled(words)))
  {
    hide IsWord;
    if words != [] {
      var n := |words| - 1;
      FilledWords(s, words[..n]);
      WithWords(s, s.Filled(words[..n]), words[n]);
    }
  }

  /** The words of a text after wrapping are those in its lines. */
  lemma WrappedWords(s: Style, text: seq<Char>)
    requires s.Valid()
    ensures s.Words(Wrapped(s, text)) == Flat(s.Filled(s.Words(text)))
  {
    var words := s.Words(text);
    if words != [] {
      WordsAreWords(s, text);
      FilledWords(s, words);
      WordsOfLines(s, s.Filled(words));
      var r := s.Render(s.Filled(words));
      WordsApart(s, r, NL, []);
      assert r + [NL] + [] == r + [NL];
      assert s.Words(r) + [] == s.Words(r);
    }
  }

  /** Wrapping keeps the words of a text exactly if no line without width comes before another word. */
  lemma WrappingKeepsWords(s: Style, text: seq<Char>)
    requires s.Valid()
    ensures s.Words(Wrapped(s, text)) == s.Words(text) <==> !Joins(s, s.Words(text))
    ensures Visible(s, s.Words(text)) ==> s.Words(Wrapped(s, text)) == s.Words(text)
  {
    WrappedWords(s, text);
    WordsKeptExactly(s, s.Words(text));
    if Visible(s, s.Words(text)) {
      FilledIsLayout(s, s.Words(text));
    }
  }

  /** If the last word of the lines is alone without any width, a word joined to it is in the same place. */
  lemma JoinedAgain(s: Style, lines: seq<seq<Word>>, front: seq<Word>, u: Word, w: Word)
    requires s.Valid() && lines != [] && forall i :: 0 <= i < |lines| ==> lines[i] != []
    requires lines[|lines| - 1] == [u] && s.LineWidth([u]) == 0
    requires Flat(lines) == front + [u] && s.Filled(front + [u]) == lines
    ensures s.Filled(front + [u + w]) == lines[..|lines| - 1] + [[u + w]]
  {
    hide Style.LineWidth, Style.WidthOf, Style.Filled;
    var x := s.Filled(front);
    FilledSnoc(s, front, u);
    FilledSnoc(s, front, u + w);
    WordsKeptExactly(s, front);
    WithFlat(s, x, u);
    JoinedWidth(s, u, w);
    NewLine(s, x, u, u + w);
  }

  /** What begins a line begins it, too, if it is wider. */
  lemma NewLine(s: Style, lines: seq<seq<Word>>, u: Word, w: Word)
    requires forall i :: 0 <= i < |lines| ==> lines[i] != []
    requires lines != [] ==> s.LineWidth(lines[|lines| - 1]) != 0
    requires var after := s.With(lines, u); after[|after| - 1] == [u]
    requires s.WidthOf(w) >= s.WidthOf(u)
    ensures s.With(lines, u) == lines + [[u]] && s.With(lines, w) == lines + [[w]]
  {
    hide Style.LineWidth, Style.WidthOf;
    if lines != [] {
      assert |lines[|lines| - 1] + [u]| > 1;
    }
  }

  /** Putting the words of the lines into lines again gives the same lines. */
  lemma {:induction false} FilledAgain(s: Style, words: seq<Word>)
    requires s.Valid()
    ensures s.Filled(Flat(s.Filled(words))) == s.Filled(words)
  {
    hide Style.LineWidth, Style.WidthOf, Style.Valid;
    if words != [] {
      var m := |words| - 1;
      var w, lines := words[m], s.Filled(words[..m]);
      FilledAgain(s, words[..m]);
      WithFlat(s, lines, w);
      if lines != [] && s.LineWidth(lines[|lines| - 1]) == 0 {
        var n := |lines| - 1;
        JoinedLine(s, lines[n], w);
        WithJoined(s, lines, w);
        var u, front := lines[n][0], Flat(lines[..n]);
        assert lines[n] == [u] && lines == lines[..n] + [[u]];
        FlatSnoc(lines[..n], [u]);
        FlatSnoc(lines[..n], [u + w]);
        JoinedAgain(s, lines, front, u, w);
      } else {
        FilledSnoc(s, Flat(lines), w);
      }
    }
  }

  /** Wrapping what is wrapped already changes nothing. */
  lemma WrappingAgain(s: Style, text: seq<Char>)
    requires s.Valid()
    ensures Wrapped(s, Wrapped(s, text)) == Wrapped(s, text)
  {
    var words := s.Words(text);
    WrappedWords(s, text);
    FilledAgain(s, words);
  }

  // How wide the lines are on the screen

  /** The columns that a text takes. */
  function Columns(s: Style, text: seq<Char>): nat {
    if text == [] then 0 else s.width(text[0]) + Columns(s, text[1..])
  }

  lemma {:induction false} ColumnsConcat(s: Style, a: seq<Char>, b: seq<Char>)
    ensures Columns(s, a + b) == Columns(s, a) + Columns(s, b)
  {
    if a == [] {
      assert a + b == b;
    } else {
      assert (a + b)[0] == a[0] && (a + b)[1..] == a[1..] + b;
      ColumnsConcat(s, a[1..], b);
    }
  }

  lemma {:induction false} ColumnsOfWord(s: Style, w: Word)
    ensures s.WidthOf(w) == Columns(s, w)
  {
    if w != [] {
      var n := |w| - 1;
      ColumnsOfWord(s, w[..n]);
      assert w == w[..n] + [w[n]] && [w[n]][1..] == [];
      ColumnsConcat(s, w[..n], [w[n]]);
    }
  }

  /** The indentation is as wide as it is said to be, and a space takes one column. */
  predicate Measured(s: Style) {
    Columns(s, s.indent) == s.indentWidth && s.width(SPACE) == 1
  }

  /** A line takes as many columns as it was counted to have. */
  lemma {:induction false} ColumnsOfLine(s: Style, line: seq<Word>)
    requires Measured(s)
    ensures Columns(s, s.RenderLine(line)) == s.LineWidth(line)
  {
    hide Style.WidthOf, Columns;
    if line != [] {
      var n := |line| - 1;
      var space := if n > 0 then [SPACE] else [];
      ColumnsOfLine(s, line[..n]);
      ColumnsOfWord(s, line[n]);
      ColumnsConcat(s, s.RenderLine(line[..n]), space);
      ColumnsConcat(s, s.RenderLine(line[..n]) + space, line[n]);
      OneSpace(s);
    }
  }

  lemma OneSpace(s: Style)
    ensures Columns(s, [SPACE]) == s.width(SPACE) && Columns(s, []) == 0
  {
    assert [SPACE][1..] == [];
  }

  /** Every line fits, or is one word; and the first word of a line would not have fitted into the line before it. */
  predicate Tight(s: Style, lines: seq<seq<Word>>) {
    && (forall i :: 0 <= i < |lines| ==> lines[i] != [] && s.Fits(lines[i]))
    && forall i :: 0 < i < |lines| ==> s.LineWidth(lines[i - 1]) + 1 + s.WidthOf(lines[i][0]) > s.textWidth
  }

  lemma WithIsTight(s: Style, lines: seq<seq<Word>>, w: Word)
    requires s.Valid() && Tight(s, lines)
    ensures Tight(s, s.With(lines, w))
  {
    hide Style.WidthOf, Style.RenderLine;
    if lines != [] {
      var n := |lines| - 1;
      var last := lines[n];
      LineSnoc(s, last, w);
      if s.LineWidth(last) == 0 {
        JoinedLine(s, last, w);
        WithJoined(s, lines, w);
        JoinedWidth(s, last[0], w);
      } else {
        hide Style.LineWidth;
        assert (last + [w])[0] == last[0];
      }
    }
  }

  lemma {:induction false} FilledIsTight(s: Style, words: seq<Word>)
    requires s.Valid()
    ensures Tight(s, s.Filled(words))
  {
    hide Tight;
    if words != [] {
      FilledIsTight(s, words[..|words| - 1]);
      WithIsTight(s, s.Filled(words[..|words| - 1]), words[|words| - 1]);
    } else {
      NothingIsTight(s);
    }
  }

  lemma NothingIsTight(s: Style)
    ensures Tight(s, [])
  {
  }

  /**
   * On the screen no line of several words goes past the text width, and a new
   * line begins only where the next word would have.
   */
  lemma LinesFitTheScreen(s: Style, words: seq<Word>, i: nat)
    requires s.Valid() && Measured(s) && i < |s.Filled(words)|
    ensures var lines := s.Filled(words);
      && (|lines[i]| > 1 ==> Columns(s, s.RenderLine(lines[i])) <= s.textWidth)
      && (i > 0 ==> Columns(s, s.RenderLine(lines[i - 1] + [lines[i][0]])) > s.textWidth)
  {
    hide Style.WidthOf, Style.LineWidth, Style.RenderLine;
    var lines := s.Filled(words);
    FilledIsTight(s, words);
    ColumnsOfLine(s, lines[i]);
    if i > 0 {
      LineSnoc(s, lines[i - 1], lines[i][0]);
      ColumnsOfLine(s, lines[i - 1] + [lines[i][0]]);
    }
  }

  // The lines of the wrapped text

  /** How far it is to the first newline. */
  function ToNewline(text: seq<Char>): (n: nat)
    ensures n <= |text| && NL !in text[..n] && (n < |text| ==> text[n] == NL)
  {
    if text == [] || text[0] == NL then 0 else
      assert forall n: nat :: n < |text| ==> text[..n + 1] == [text[0]] + text[1..][..n];
      1 + ToNewline(text[1..])
  }

  /** A text, taken apart at its newlines. */
  function TextLines(text: seq<Char>): seq<seq<Char>>
    decreases |text|
  {
    if text == [] then [] else
      var n := ToNewline(text);
      [text[..n]] + if n < |text| then TextLines(text[n + 1..]) else []
  }

  lemma FirstTextLine(line: seq<Char>, rest: seq<Char>)
    requires NL !in line
    ensures TextLines(line + [NL] + rest) == [line] + TextLines(rest)
  {
    var t := line + [NL] + rest;
    assert t[|line|] == NL && t[..|line|] == line && t[|line| + 1..] == rest;
    assert forall k :: 0 <= k < |line| ==> t[k] == line[k];
  }

  function Rendered(s: Style, lines: seq<seq<Word>>): seq<seq<Char>> {
    seq(|lines|, i requires 0 <= i < |lines| => s.RenderLine(lines[i]))
  }

  lemma {:induction false} LineHasNoNewline(s: Style, line: seq<Word>)
    requires s.Valid() && NL !in s.indent && AreWords(s, line)
    ensures NL !in s.RenderLine(line)
  {
    if line != [] {
      LineHasNoNewline(s, line[..|line| - 1]);
      assert IsWord(s, line[|line| - 1]);
    }
  }

  /** Text that lines are put behind one after another. */
  lemma {:induction false} RenderedLines(s: Style, lines: seq<seq<Word>>, rest: seq<Char>)
    requires s.Valid() && NL !in s.indent && lines != [] && AreWords(s, Flat(lines))
    ensures TextLines(s.Render(lines) + [NL] + rest) == Rendered(s, lines) + TextLines(rest)
    decreases |lines|
  {
    hide Style.RenderLine, TextLines, Style.Valid, AreWords;
    var n := |lines| - 1;
    var front, last := lines[..n], lines[n];
    var r := s.RenderLine(last);
    assert lines == front + [last];
    FlatSnoc(front, last);
    WordsIn(s, Flat(front), last);
    LineHasNoNewline(s, last);
    RenderSnoc(s, front, last);
    FirstTextLine(r, rest);
    assert Rendered(s, lines) == Rendered(s, front) + [r];
    if front == [] {
      assert Rendered(s, front) + [r] + TextLines(rest) == [r] + TextLines(rest);
    } else {
      RenderedLines(s, front, r + [NL] + rest);
      assert s.Render(lines) + [NL] + rest == s.Render(front) + [NL] + (r + [NL] + rest);
      assert Rendered(s, front) + ([r] + TextLines(rest)) == Rendered(s, front) + [r] + TextLines(rest);
    }
  }

  lemma WordsIn(s: Style, a: seq<Word>, b: seq<Word>)
    requires AreWords(s, a + b)
    ensures AreWords(s, a) && AreWords(s, b)
  {
    forall i | 0 <= i < |a| ensures IsWord(s, a[i]) {
      assert (a + b)[i] == a[i];
    }
    forall i | 0 <= i < |b| ensures IsWord(s, b[i]) {
      assert (a + b)[|a| + i] == b[i];
    }
  }

  /** The lines of a text after wrapping are the lines that its words were put into. */
  lemma WrappedLines(s: Style, text: seq<Char>)
    requires s.Valid() && NL !in s.indent
    ensures TextLines(Wrapped(s, text)) == Rendered(s, s.Filled(s.Words(text)))
  {
    var words := s.Words(text);
    if words != [] {
      WordsAreWords(s, text);
      FilledWords(s, words);
      RenderedLines(s, s.Filled(words), []);
      var r := s.Render(s.Filled(words));
      assert r + [NL] + [] == r + [NL];
      assert Rendered(s, s.Filled(words)) + [] == Rendered(s, s.Filled(words));
    }
  }

  method WordWidth(style: Style, word: Word) returns (w: nat)
    ensures w == style.WidthOf(word)
  {
    w := 0;
    for i := 0 to |word|
      invariant w == style.WidthOf(word[..i])
    {
      assert word[..i + 1][..i] == word[..i];
      w := w + style.width(word[i]);
    }
    assert word[..|word|] == word;
  }

  class ParagraphFormatter {
    const style: Style
    var buf: seq<Char>
    var curWidth: nat
    ghost var lines: seq<seq<Word>>

    ghost predicate Valid()
      reads this
    {
      && style.Valid()
      && (forall i :: 0 <= i < |lines| ==> lines[i] != [])
      && buf == style.Render(lines)
      && curWidth == if lines == [] then 0 else style.LineWidth(lines[|lines| - 1])
    }

    constructor (style: Style)
      requires style.Valid()
      ensures Valid() && this.style == style && lines == []
    {
      this.style := style;
      buf, curWidth, lines := [], 0, [];
    }

    method AddWord(word: Word)
      requires Valid()
      modifies this
      ensures Valid() && lines == style.With(old(lines), word)
    {
      var wordWidth := WordWidth(style, word);
      hide Style.With, Style.Render, Style.LineWidth, Style.WidthOf;
      assert buf + [] == buf;
      if curWidth != 0 && curWidth + 1 + wordWidth > style.textWidth {
        AddsLine(style, lines, word);
        buf := buf + [NL];
        curWidth := 0;
      } else if curWidth != 0 {
        AddsWord(style, lines, word);
      } else if lines == [] {
        AddsFirst(style, word);
      } else {
        AddsJoined(style, lines, word);
      }
      if curWidth == 0 {
        buf := buf + style.indent;
        curWidth := style.indentWidth;
      } else {
        buf := buf + [SPACE];
        curWidth := curWidth + 1;
      }
      buf := buf + word;
      curWidth := curWidth + wordWidth;
      lines := style.With(lines, word);
    }
  }

  lemma RenderSnoc(s: Style, lines: seq<seq<Word>>, line: seq<Word>)
    ensures s.Render(lines + [line])
      == if lines == [] then s.RenderLine(line) else s.Render(lines) + [NL] + s.RenderLine(line)
  {
    hide Style.RenderLine;
    var r := s.RenderLine(line);
    assert (lines + [line])[..|lines|] == lines;
    assert [] + [] + r == r;
  }

  lemma LineSnoc(s: Style, line: seq<Word>, w: Word)
    ensures s.RenderLine(line + [w]) == if line == [] then s.indent + w else s.RenderLine(line) + [SPACE] + w
    ensures s.LineWidth(line + [w])
      == (if line == [] then s.indentWidth else s.LineWidth(line) + 1) + s.WidthOf(w)
  {
    hide Style.WidthOf;
    assert (line + [w])[..|line|] == line;
    assert s.indent + [] + w == s.indent + w;
  }

  /** What one more word adds to the text, and how wide the last line is with it. */
  predicate Adds(s: Style, lines: seq<seq<Word>>, w: Word, wrap: seq<Char>, gap: seq<Char>, width: nat)
    requires forall i :: 0 <= i < |lines| ==> lines[i] != []
  {
    var after := s.With(lines, w);
    && after != [] && (forall i :: 0 <= i < |after| ==> after[i] != [])
    && s.Render(after) == s.Render(lines) + wrap + gap + w && s.LineWidth(after[|after| - 1]) == width
  }

  lemma AddsFirst(s: Style, w: Word)
    ensures Adds(s, [], w, [], s.indent, s.indentWidth + s.WidthOf(w))
  {
    hide Style.WidthOf, Style.RenderLine, Style.LineWidth;
    RenderSnoc(s, [], [w]);
    LineSnoc(s, [], w);
    assert [] + [[w]] == [[w]] && [] + [w] == [w];
    assert [] + [] + s.indent + w == s.indent + w;
  }

  lemma WithJoined(s: Style, lines: seq<seq<Word>>, w: Word)
    requires lines != [] && forall i :: 0 <= i < |lines| ==> lines[i] != []
    requires s.LineWidth(lines[|lines| - 1]) == 0 && |lines[|lines| - 1]| == 1
    ensures s.With(lines, w) == lines[..|lines| - 1] + [[lines[|lines| - 1][0] + w]]
  {
    hide Style.LineWidth;
    var last := lines[|lines| - 1];
    assert last[..0] + [last[0] + w] == [last[0] + w];
  }

  lemma RenderJoined(s: Style, front: seq<seq<Word>>, line: seq<Word>, joined: seq<Word>, w: Word)
    requires s.RenderLine(joined) == s.RenderLine(line) + w
    ensures s.Render(front + [joined]) == s.Render(front + [line]) + w
  {
    hide Style.RenderLine, Style.Render;
    RenderSnoc(s, front, line);
    RenderSnoc(s, front, joined);
    Assoc(s.Render(front) + [NL], s.RenderLine(line), w);
  }

  lemma AddsJoined(s: Style, lines: seq<seq<Word>>, w: Word)
    requires s.Valid() && lines != [] && forall i :: 0 <= i < |lines| ==> lines[i] != []
    requires s.LineWidth(lines[|lines| - 1]) == 0
    ensures s.indentWidth == 0 && Adds(s, lines, w, [], s.indent, s.indentWidth + s.WidthOf(w))
  {
    hide Style.Valid, Style.WidthOf, Style.RenderLine, Style.LineWidth, Style.Render, Style.With;
    var n := |lines| - 1;
    JoinedLine(s, lines[n], w);
    WithJoined(s, lines, w);
    assert lines[..n] + [lines[n]] == lines;
    RenderJoined(s, lines[..n], lines[n], [lines[n][0] + w], w);
    AddNothing(s.Render(lines));
  }

  lemma Assoc(a: seq<Char>, b: seq<Char>, c: seq<Char>)
    ensures a + (b + c) == a + b + c
  {
  }

  lemma AddNothing(a: seq<Char>)
    ensures a + [] == a
  {
  }

  lemma AddsLine(s: Style, lines: seq<seq<Word>>, w: Word)
    requires lines != [] && forall i :: 0 <= i < |lines| ==> lines[i] != []
    requires s.LineWidth(lines[|lines| - 1]) != 0
    requires s.LineWidth(lines[|lines| - 1]) + 1 + s.WidthOf(w) > s.textWidth
    ensures Adds(s, lines, w, [NL], s.indent, s.indentWidth + s.WidthOf(w))
  {
    hide Style.WidthOf, Style.RenderLine, Style.LineWidth, Style.Render;
    RenderSnoc(s, lines, [w]);
    LineSnoc(s, [], w);
    assert [] + [w] == [w];
    var r := s.Render(lines) + [NL];
    assert r + (s.indent + w) == r + s.indent + w;
  }

  lemma AddsWord(s: Style, lines: seq<seq<Word>>, w: Word)
    requires lines != [] && forall i :: 0 <= i < |lines| ==> lines[i] != []
    requires s.LineWidth(lines[|lines| - 1]) != 0
    requires s.LineWidth(lines[|lines| - 1]) + 1 + s.WidthOf(w) <= s.textWidth
    ensures Adds(s, lines, w, [], [SPACE], s.LineWidth(lines[|lines| - 1]) + 1 + s.WidthOf(w))
  {
    hide Style.WidthOf, Style.RenderLine, Style.LineWidth, Style.Render;
    var n := |lines| - 1;
    var front, last := lines[..n], lines[n];
    LineSnoc(s, last, w);
    RenderSnoc(s, front, last);
    assert front + [last] == lines;
    RenderSnoc(s, front, last + [w]);
    Assoc(s.Render(front) + [NL], s.RenderLine(last) + [SPACE], w);
    Assoc(s.Render(front) + [NL], s.RenderLine(last), [SPACE]);
    AddNothing(s.Render(lines));
  }

  /** A line without width is one word behind no indentation. */
  lemma JoinedLine(s: Style, line: seq<Word>, w: Word)
    requires s.Valid() && line != [] && s.LineWidth(line) == 0
    ensures |line| == 1 && s.indentWidth == 0 && s.indent == []
    ensures s.RenderLine([line[0] + w]) == s.RenderLine(line) + w
    ensures s.LineWidth([line[0] + w]) == s.WidthOf(w)
  {
    assert line[..0] == [] && [line[0] + w][..0] == [];
    JoinedWidth(s, line[0], w);
  }

  lemma {:induction false} JoinedWidth(s: Style, a: Word, b: Word)
    ensures s.WidthOf(a + b) == s.WidthOf(a) + s.WidthOf(b)
    decreases |b|
  {
    if b == [] {
      assert a + b == a;
    } else {
      var n := |b| - 1;
      assert (a + b)[..|a + b| - 1] == a + b[..n];
      JoinedWidth(s, a, b[..n]);
    }
  }

  method WrapParagraph(style: Style, sel: seq<Char>) returns (text: seq<Char>)
    requires style.Valid()
    ensures text == Wrapped(style, sel)
  {
    hide Style.Valid, Style.With, Style.Render, Style.LineWidth, Style.WidthOf, Style.Words, Style.WordEnd, Wrapped;
    var pf := new ParagraphFormatter(style);
    var i := 0;
    ghost var done: seq<Word> := [];
    assert sel[0..] == sel;
    while true
      invariant i <= |sel| && pf.Valid() && pf.style == style
      invariant style.Words(sel) == done + style.Words(sel[i..]) && pf.lines == style.Filled(done)
      decreases |sel| - i
    {
      while i < |sel| && style.breakable(sel[i])
        invariant i <= |sel| && pf.Valid() && pf.style == style
        invariant style.Words(sel) == done + style.Words(sel[i..]) && pf.lines == style.Filled(done)
      {
        Blank(style, sel, i);
        i := i + 1;
      }
      if i == |sel| {
        break;
      }
      var start := i;
      while i < |sel| && !style.breakable(sel[i])
        invariant start <= i <= |sel| && pf.Valid() && pf.style == style && pf.lines == style.Filled(done)
        invariant style.WordEnd(sel[start..]) == i - start + style.WordEnd(sel[i..])
      {
        InWord(style, sel, i);
        i := i + 1;
      }
      NextWord(style, sel, start, i);
      WithDone(style, done, sel[start..i]);
      ghost var rest := style.Words(sel[i..]);
      assert done + ([sel[start..i]] + rest) == done + [sel[start..i]] + rest;
      done := done + [sel[start..i]];
      pf.AddWord(sel[start..i]);
    }
    Done(style, sel, done);
    text := pf.buf;
    if |text| > 0 {
      text := text + [NL];
    }
  }

  lemma Blank(s: Style, text: seq<Char>, i: nat)
    requires i < |text| && s.breakable(text[i])
    ensures s.Words(text[i..]) == s.Words(text[i + 1..])
  {
    assert text[i..][0] == text[i] && text[i..][1..] == text[i + 1..];
  }

  lemma InWord(s: Style, text: seq<Char>, i: nat)
    requires i < |text| && !s.breakable(text[i])
    ensures s.WordEnd(text[i..]) == 1 + s.WordEnd(text[i + 1..])
  {
    assert text[i..][0] == text[i] && text[i..][1..] == text[i + 1..];
  }

  /** Once all words are in lines, there is text unless there were no words. */
  lemma Done(s: Style, text: seq<Char>, done: seq<Word>)
    requires s.Valid() && s.Words(text) == done + s.Words(text[|text|..])
    ensures var r := s.Render(s.Filled(done)); Wrapped(s, text) == if r == [] then [] else r + [NL]
  {
    assert s.Words(text[|text|..]) == [] && done + [] == done;
    WordsAreWords(s, text);
    if done != [] {
      var n := |done| - 1;
      LastIsRendered(s, s.Filled(done[..n]), done[n]);
    }
  }

  lemma LastIsRendered(s: Style, lines: seq<seq<Word>>, w: Word)
    requires s.Valid() && w != [] && forall i :: 0 <= i < |lines| ==> lines[i] != []
    ensures s.Render(s.With(lines, w)) != []
  {
    hide Style.With, Style.Render, Style.LineWidth, Style.WidthOf;
    if lines == [] {
      AddsFirst(s, w);
    } else if s.LineWidth(lines[|lines| - 1]) == 0 {
      AddsJoined(s, lines, w);
    } else if s.LineWidth(lines[|lines| - 1]) + 1 + s.WidthOf(w) > s.textWidth {
      AddsLine(s, lines, w);
    } else {
      AddsWord(s, lines, w);
    }
  }

  lemma NextWord(s: Style, text: seq<Char>, start: nat, end: nat)
    requires start <= end <= |text| && start < |text| && !s.breakable(text[start])
    requires s.WordEnd(text[start..]) == end - start + s.WordEnd(text[end..])
    requires end < |text| ==> s.breakable(text[end])
    ensures start < end
    ensures s.Words(text[start..]) == [text[start..end]] + s.Words(text[end..])
  {
    assert text[start..][..end - start] == text[start..end] && text[start..][end - start..] == text[end..];
  }

  lemma WithDone(s: Style, done: seq<Word>, w: Word)
    ensures s.Filled(done + [w]) == s.With(s.Filled(done), w)
  {
    assert (done + [w])[..|done|] == done;
  }
}
