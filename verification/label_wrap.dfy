/**
 * Greedy word-wrapping of long node labels (the loop inside `nodeToVis`).
 *
 * A label longer than `MaxLineLength` characters is split at every single
 * space; the words are laid onto lines left to right, and a line is closed
 * when appending the next word (with its separating space) would make it
 * longer than `MaxLineLength` and the line is not empty. The lines are then
 * joined with newlines.
 */
module LabelWrap {
  import opened Js

  const MaxLineLength := 30

  /** The loop's two variables: the finished lines and the line being built. */
  datatype WrapState = WrapState(lines: seq<string>, current: string)

  /** One iteration of the loop over the words. */
  function Step(st: WrapState, word: string): (next: WrapState)
    ensures next.lines == st.lines || (st.current != "" && next.lines == st.lines + [st.current] && next.current == word)
    ensures next.lines == st.lines ==> |next.current| <= MaxLineLength || next.current == word
  {
    if |st.current| + 1 + |word| > MaxLineLength && |st.current| > 0 then
      WrapState(st.lines + [st.current], word)
    else
      WrapState(st.lines, if st.current != "" then st.current + " " + word else word)
  }

  /** The loop's state after it has consumed `words`, from an empty start. */
  function Fill(words: seq<string>): (st: WrapState)
    ensures |st.lines| + (if st.current != "" then 1 else 0) <= |words|
  {
    if words == [] then WrapState([], "")
    else Step(Fill(words[..|words| - 1]), words[|words| - 1])
  }

  /** The lines after the loop: the last line is kept only when it is not empty. */
  function Wrap(words: seq<string>): (lines: seq<string>)
    ensures |lines| <= |words|
  {
    var st := Fill(words);
    if st.current != "" then st.lines + [st.current] else st.lines
  }

  /** The label as displayed: long labels wrapped, short ones untouched. */
  function WrappedLabel(text: string): string
  {
    if |text| > MaxLineLength then Join(Wrap(Split(text)), "\n") else text
  }

  /** The wrapping loop, proved to compute `WrappedLabel`. */
  method WrapLabel(text: string) returns (wrapped: string)
    ensures wrapped == WrappedLabel(text)
  {
    if |text| <= MaxLineLength {
      return text;
    }
    var words := Split(text);
    var lines: seq<string> := [];
    var current := "";
    for i := 0 to |words|
      invariant WrapState(lines, current) == Fill(words[..i])
    {
      var word := words[i];
      if |current + " " + word| > MaxLineLength && |current| > 0 {
        lines := lines + [current];
        current := word;
      } else {
        current := if current != "" then current + " " + word else word;
      }
      assert words[..i + 1][..i] == words[..i];
    }
    assert words[..|words|] == words;
    if current != "" {
      lines := lines + [current];
    }
    wrapped := Join(lines, "\n");
  }

  // ---------------------------------------------------------------------
  // No empty line

  lemma {:induction false} FillLinesNonEmpty(words: seq<string>)
    ensures forall i :: 0 <= i < |Fill(words).lines| ==> Fill(words).lines[i] != ""
  {
    if words != [] {
      FillLinesNonEmpty(words[..|words| - 1]);
    }
  }

  /** No wrapped line is empty: a line is only closed when it holds something. */
  lemma WrapHasNoEmptyLine(words: seq<string>)
    ensures forall i :: 0 <= i < |Wrap(words)| ==> Wrap(words)[i] != ""
  {
    FillLinesNonEmpty(words);
  }

  // ---------------------------------------------------------------------
  // Line length

  ghost predicate ShortOrWord(line: string, words: seq<string>)
  {
    |line| <= MaxLineLength || line in words
  }

  lemma {:induction false} FillShortOrWord(words: seq<string>)
    ensures ShortOrWord(Fill(words).current, words)
    ensures forall i :: 0 <= i < |Fill(words).lines| ==> ShortOrWord(Fill(words).lines[i], words)
  {
    if words != [] {
      var prefix := words[..|words| - 1];
      FillShortOrWord(prefix);
      assert forall w :: w in prefix ==> w in words;
    }
  }

  /** A wrapped line longer than the limit is one of the words, unchanged. */
  lemma WrapLongLineIsOneWord(words: seq<string>)
    ensures forall i :: 0 <= i < |Wrap(words)| && |Wrap(words)[i]| > MaxLineLength ==> Wrap(words)[i] in words
  {
    FillShortOrWord(words);
  }

  // ---------------------------------------------------------------------
  // No word lost, split or reordered

  lemma StepKeepsWords(st: WrapState, word: string, joined: string)
    requires st.current != "" && word != ""
    requires Join(st.lines + [st.current], " ") == joined
    ensures Step(st, word).current != ""
    ensures Join(Step(st, word).lines + [Step(st, word).current], " ") == joined + " " + word
  {
    JoinSnoc(st.lines, st.current, " ");
    if |st.current| + 1 + |word| > MaxLineLength {
      JoinSnoc(st.lines + [st.current], word, " ");
    } else {
      JoinSnoc(st.lines, st.current + " " + word, " ");
    }
  }

  lemma {:induction false} FillKeepsWords(words: seq<string>)
    requires |words| >= 1
    requires forall i :: 0 <= i < |words| ==> words[i] != ""
    ensures Fill(words).current != ""
    ensures Join(Fill(words).lines + [Fill(words).current], " ") == Join(words, " ")
  {
    var prefix, word := words[..|words| - 1], words[|words| - 1];
    assert words == prefix + [word];
    if prefix == [] {
      assert Fill(words) == Step(WrapState([], ""), word);
    } else {
      FillKeepsWords(prefix);
      StepKeepsWords(Fill(prefix), word, Join(prefix, " "));
      JoinSnoc(prefix, word, " ");
    }
  }

  /** Joining the lines with single spaces gives back the words joined with single spaces. */
  lemma WrapKeepsWords(words: seq<string>)
    requires forall i :: 0 <= i < |words| ==> words[i] != ""
    ensures Join(Wrap(words), " ") == Join(words, " ")
  {
    if words != [] {
      FillKeepsWords(words);
    }
  }

  // ---------------------------------------------------------------------
  // Greediness

  /** The text of `s` up to its first space. */
  function FirstWord(s: string): string
  {
    if s == [] || s[0] == ' ' then "" else [s[0]] + FirstWord(s[1..])
  }

  lemma {:induction false} FirstWordOfWord(w: string)
    requires ' ' !in w
    ensures FirstWord(w) == w
  {
    if w != [] {
      assert ' ' !in w[1..];
      FirstWordOfWord(w[1..]);
    }
  }

  lemma {:induction false} FirstWordBeforeSpace(a: string, b: string)
    ensures FirstWord(a + " " + b) == FirstWord(a)
  {
    if a == [] {
      assert (a + " " + b)[0] == ' ';
    } else {
      assert (a + " " + b)[0] == a[0];
      if a[0] != ' ' {
        assert (a + " " + b)[1..] == a[1..] + " " + b;
        FirstWordBeforeSpace(a[1..], b);
      }
    }
  }

  /** `split(' ')[0]` is the first word. */
  lemma {:induction false} FirstWordIsFirstPiece(s: string)
    ensures FirstWord(s) == Split(s)[0]
  {
    if s != [] && s[0] != ' ' {
      FirstWordIsFirstPiece(s[1..]);
    }
  }

  /** `next` could not have been appended to `line`: its first word does not fit. */
  ghost predicate Full(line: string, next: string)
  {
    |line| + 1 + |FirstWord(next)| > MaxLineLength
  }

  ghost predicate Greedy(st: WrapState)
  {
    && (forall i :: 0 <= i < |st.lines| - 1 ==> Full(st.lines[i], st.lines[i + 1]))
    && (|st.lines| > 0 && st.current != "" ==> Full(st.lines[|st.lines| - 1], st.current))
    && (|st.lines| > 0 && st.current == "" ==> |st.lines[|st.lines| - 1]| >= MaxLineLength)
  }

  lemma GreedyAfterBreak(st: WrapState, word: string)
    requires Greedy(st)
    requires ' ' !in word
    requires |st.current| + 1 + |word| > MaxLineLength && |st.current| > 0
    ensures Greedy(Step(st, word))
  {
    FirstWordOfWord(word);
    var lines := st.lines + [st.current];
    assert Step(st, word) == WrapState(lines, word);
    forall i | 0 <= i < |lines| - 1
      ensures Full(lines[i], lines[i + 1])
    {
      if i < |st.lines| - 1 {
        assert lines[i] == st.lines[i] && lines[i + 1] == st.lines[i + 1];
      } else {
        assert lines[i] == st.lines[|st.lines| - 1] && lines[i + 1] == st.current;
      }
    }
  }

  lemma GreedyAfterAppend(st: WrapState, word: string)
    requires Greedy(st)
    requires ' ' !in word
    requires !(|st.current| + 1 + |word| > MaxLineLength && |st.current| > 0)
    ensures Greedy(Step(st, word))
  {
    if st.current != "" {
      FirstWordBeforeSpace(st.current, word);
      assert Step(st, word) == WrapState(st.lines, st.current + " " + word);
    } else {
      assert Step(st, word) == WrapState(st.lines, word);
    }
  }

  lemma StepGreedy(st: WrapState, word: string)
    requires Greedy(st)
    requires ' ' !in word
    ensures Greedy(Step(st, word))
  {
    if |st.current| + 1 + |word| > MaxLineLength && |st.current| > 0 {
      GreedyAfterBreak(st, word);
    } else {
      GreedyAfterAppend(st, word);
    }
  }

  lemma {:induction false} FillGreedy(words: seq<string>)
    requires forall i :: 0 <= i < |words| ==> ' ' !in words[i]
    ensures Greedy(Fill(words))
  {
    if words != [] {
      FillGreedy(words[..|words| - 1]);
      StepGreedy(Fill(words[..|words| - 1]), words[|words| - 1]);
    }
  }

  /**
   * Every line break is forced: the first word of the next line would not
   * have fitted, after a space, at the end of the line before it.
   */
  lemma WrapIsGreedy(words: seq<string>)
    requires forall i :: 0 <= i < |words| ==> ' ' !in words[i]
    ensures forall i :: 0 <= i < |Wrap(words)| - 1 ==>
      |Wrap(words)[i]| + 1 + |FirstWord(Wrap(words)[i + 1])| > MaxLineLength
  {
    FillGreedy(words);
    var st := Fill(words);
    if st.current != "" {
      var w := st.lines + [st.current];
      assert forall i :: 0 <= i < |w| - 1 ==> Full(w[i], w[i + 1]);
    }
  }

  // ---------------------------------------------------------------------
  // The promises about a wrapped label

  /**
   * The lines of a wrapped label: none is empty, one longer than the limit
   * is a single word without a space, each break is forced, and when the
   * label's words are separated by single spaces the lines joined with
   * single spaces give the label back.
   */
  lemma WrappedLabelLines(text: string)
    requires |text| > MaxLineLength
    ensures WrappedLabel(text) == Join(Wrap(Split(text)), "\n")
    ensures forall i :: 0 <= i < |Wrap(Split(text))| ==> Wrap(Split(text))[i] != ""
    ensures forall i :: 0 <= i < |Wrap(Split(text))| && |Wrap(Split(text))[i]| > MaxLineLength ==>
      ' ' !in Wrap(Split(text))[i]
    ensures forall i :: 0 <= i < |Wrap(Split(text))| - 1 ==>
      |Wrap(Split(text))[i]| + 1 + |FirstWord(Wrap(Split(text))[i + 1])| > MaxLineLength
    ensures (forall i :: 0 <= i < |Split(text)| ==> Split(text)[i] != "") ==>
      Join(Wrap(Split(text)), " ") == text
  {
    var words := Split(text);
    WrapHasNoEmptyLine(words);
    WrapLongLineIsOneWord(words);
    WrapIsGreedy(words);
    JoinSplit(text);
    if forall i :: 0 <= i < |words| ==> words[i] != "" {
      WrapKeepsWords(words);
    }
  }
}
