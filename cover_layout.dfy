/**
 * The generated book covers: the greedy word wrap both cover generators run on
 * the title (`generateCleanFallbackCover` of the watermark remover, with lines up
 * to 350 pixels wide, and `generateCoverImage` of the upload form, up to 200),
 * and where the lines and the author line are drawn. Text widths come from the
 * canvas's `measureText`, given here as a function.
 */
module CoverLayout {

  import opened Wrappers
  import opened Strings

  /** The line width of the watermark remover's fallback cover. */
  const FallbackWrapWidth: real := 350.0

  /** The line width of the upload form's generated cover. */
  const UploadWrapWidth: real := 200.0

  /** The state of the wrap loop: the lines pushed so far and `currentLine`. */
  datatype Wrap = Wrap(lines: seq<string>, current: string)

  /** `currentLine + (currentLine ? ' ' : '') + word` */
  function TestLine(current: string, word: string): (t: string)
    ensures current == "" ==> t == word
    ensures current != "" ==> t == current + " " + word
  {
    current + (if current != "" then " " else "") + word
  }

  /** One word of the loop: the line breaks before it when the test line is too wide and a line is under way. */
  function Step(w: Wrap, word: string, measure: string -> real, maxWidth: real): Wrap {
    var test := TestLine(w.current, word);
    if measure(test) > maxWidth && w.current != "" then Wrap(w.lines + [w.current], word)
    else Wrap(w.lines, test)
  }

  /** The loop over `words`, from the state `w`. */
  function Fold(w: Wrap, words: seq<string>, measure: string -> real, maxWidth: real): Wrap
    decreases |words|
  {
    if words == [] then w else Fold(Step(w, words[0], measure, maxWidth), words[1..], measure, maxWidth)
  }

  /** The lines of a state once the line under way is pushed, if it is not empty. */
  function Finished(w: Wrap): seq<string> {
    if w.current != "" then w.lines + [w.current] else w.lines
  }

  /** The lines the wrap makes of `words`. */
  function Wrapped(words: seq<string>, measure: string -> real, maxWidth: real): seq<string> {
    Finished(Fold(Wrap([], ""), words, measure, maxWidth))
  }

  /** The word wrap of the title, `title.split(' ')` and the `forEach` that fills `lines`. */
  method WrapTitle(title: string, measure: string -> real, maxWidth: real) returns (lines: seq<string>)
    ensures lines == Wrapped(Split(title, ' '), measure, maxWidth)
  {
    var words := Split(title, ' ');
    lines := [];
    var currentLine := "";
    for k := 0 to |words|
      invariant Fold(Wrap(lines, currentLine), words[k..], measure, maxWidth) == Fold(Wrap([], ""), words, measure, maxWidth)
    {
      var word := words[k];
      var testLine := currentLine + (if currentLine != "" then " " else "") + word;
      if measure(testLine) > maxWidth && currentLine != "" {
        lines := lines + [currentLine];
        currentLine := word;
      } else {
        currentLine := testLine;
      }
      assert words[k..][1..] == words[k + 1..];
    }
    if currentLine != "" {
      lines := lines + [currentLine];
    }
  }

  // ---------------------------------------------------------------------------
  // Folding in pieces

  /** The loop over `words[..k]` and then over the rest is the loop over all of `words`. */
  lemma {:induction false} FoldSplit(w: Wrap, words: seq<string>, k: nat, measure: string -> real, maxWidth: real)
    requires k <= |words|
    ensures Fold(w, words, measure, maxWidth) == Fold(Fold(w, words[..k], measure, maxWidth), words[k..], measure, maxWidth)
    decreases k
  {
    if k > 0 {
      assert words[..k][1..] == words[1..][..k - 1];
      assert words[k..] == words[1..][k - 1..];
      FoldSplit(Step(w, words[0], measure, maxWidth), words[1..], k - 1, measure, maxWidth);
    }
  }

  /** The loop over one more word is one more step. */
  lemma FoldSnoc(w: Wrap, words: seq<string>, k: nat, measure: string -> real, maxWidth: real)
    requires k < |words|
    ensures Fold(w, words[..k + 1], measure, maxWidth)
         == Step(Fold(w, words[..k], measure, maxWidth), words[k], measure, maxWidth)
  {
    FoldSplit(w, words[..k + 1], k, measure, maxWidth);
    assert words[..k + 1][..k] == words[..k];
    assert words[..k + 1][k..] == [words[k]];
  }

  /** The loop only ever adds lines after those already pushed. */
  lemma {:induction false} FoldKeepsLines(w: Wrap, words: seq<string>, measure: string -> real, maxWidth: real)
    ensures w.lines <= Fold(w, words, measure, maxWidth).lines
    decreases |words|
  {
    if words != [] {
      FoldKeepsLines(Step(w, words[0], measure, maxWidth), words[1..], measure, maxWidth);
    }
  }

  // ---------------------------------------------------------------------------
  // What the wrap promises

  /** None of the lines is empty. */
  predicate NoEmptyLine(lines: seq<string>) {
    forall k :: 0 <= k < |lines| ==> lines[k] != ""
  }

  /** No empty line is ever pushed: `currentLine` is pushed only when it is not empty. */
  lemma {:induction false} FoldLinesNonEmpty(w: Wrap, words: seq<string>, measure: string -> real, maxWidth: real)
    requires NoEmptyLine(w.lines)
    ensures NoEmptyLine(Fold(w, words, measure, maxWidth).lines)
    decreases |words|
  {
    if words != [] {
      var s := Step(w, words[0], measure, maxWidth);
      assert NoEmptyLine(s.lines) by {
        assert s.lines == w.lines || (w.current != "" && s.lines == w.lines + [w.current]);
      }
      FoldLinesNonEmpty(s, words[1..], measure, maxWidth);
    }
  }

  /** Every line of the wrap is non-empty; the empty title gives no line at all. */
  lemma WrappedNonEmpty(words: seq<string>, measure: string -> real, maxWidth: real)
    ensures NoEmptyLine(Wrapped(words, measure, maxWidth))
    ensures Wrapped(Split("", ' '), measure, maxWidth) == []
  {
    FoldLinesNonEmpty(Wrap([], ""), words, measure, maxWidth);
    assert IndexOf("", ' ') == None;
    assert Split("", ' ') == [""];
    assert Step(Wrap([], ""), "", measure, maxWidth) == Wrap([], "");
    assert Fold(Wrap([], ""), [""], measure, maxWidth) == Fold(Wrap([], ""), [], measure, maxWidth);
  }

  /** The lines of a state, counting the one under way. */
  function LineCount(w: Wrap): nat {
    |w.lines| + if w.current != "" then 1 else 0
  }

  /** Each word adds at most one line. */
  lemma {:induction false} FoldCount(w: Wrap, words: seq<string>, measure: string -> real, maxWidth: real)
    ensures LineCount(Fold(w, words, measure, maxWidth)) <= LineCount(w) + |words|
    decreases |words|
  {
    if words != [] {
      FoldCount(Step(w, words[0], measure, maxWidth), words[1..], measure, maxWidth);
    }
  }

  /** There are never more lines than words. */
  lemma WrappedCount(words: seq<string>, measure: string -> real, maxWidth: real)
    ensures |Wrapped(words, measure, maxWidth)| <= |words|
  {
    FoldCount(Wrap([], ""), words, measure, maxWidth);
  }

  /** A line fits the width, or it is a single word of the title. */
  predicate Fits(line: string, words: seq<string>, measure: string -> real, maxWidth: real) {
    measure(line) <= maxWidth || line in words
  }

  /** Every line of a state fits. */
  predicate AllFit(w: Wrap, all: seq<string>, measure: string -> real, maxWidth: real) {
    && (forall k :: 0 <= k < |w.lines| ==> Fits(w.lines[k], all, measure, maxWidth))
    && (w.current == "" || Fits(w.current, all, measure, maxWidth))
  }

  /** A line only grows while it stays within the width; a line that starts with a word holds that word. */
  lemma {:induction false} FoldFits(w: Wrap, words: seq<string>, all: seq<string>, measure: string -> real, maxWidth: real)
    requires forall k :: 0 <= k < |words| ==> words[k] in all
    requires AllFit(w, all, measure, maxWidth)
    ensures AllFit(Fold(w, words, measure, maxWidth), all, measure, maxWidth)
    decreases |words|
  {
    if words != [] {
      FoldFits(Step(w, words[0], measure, maxWidth), words[1..], all, measure, maxWidth);
    }
  }

  /** Every line of the wrap is at most `maxWidth` wide, unless it is one word on its own. */
  lemma WrappedFits(words: seq<string>, measure: string -> real, maxWidth: real)
    ensures forall k :: 0 <= k < |Wrapped(words, measure, maxWidth)| ==>
      Fits(Wrapped(words, measure, maxWidth)[k], words, measure, maxWidth)
  {
    FoldFits(Wrap([], ""), words, words, measure, maxWidth);
  }

  /** A string never measures less than a piece at its start or at its end. */
  ghost predicate Widening(measure: string -> real) {
    forall a: string, b: string {:trigger measure(a + b)} :: measure(a) <= measure(a + b) && measure(b) <= measure(a + b)
  }

  /** After a word too wide for any line, the line under way is that word alone. */
  lemma OverWideStep(w: Wrap, word: string, measure: string -> real, maxWidth: real)
    requires Widening(measure) && measure(word) > maxWidth
    ensures Step(w, word, measure, maxWidth).current == word
    ensures Step(w, word, measure, maxWidth).lines == Finished(w)
  {
    if w.current != "" {
      assert measure(word) <= measure(w.current + " " + word) by {
        assert w.current + " " + word == (w.current + " ") + word;
      }
    }
  }

  /**
   * With a width that grows with the text, a word wider than the line ends up
   * on a line of its own: the line before it is broken off, and so is the line
   * after it.
   */
  lemma OverWideAlone(words: seq<string>, k: nat, measure: string -> real, maxWidth: real)
    requires Widening(measure) && k < |words| && words[k] != "" && measure(words[k]) > maxWidth
    ensures words[k] in Wrapped(words, measure, maxWidth)
  {
    var init := Wrap([], "");
    var before := Fold(init, words[..k], measure, maxWidth);
    var after := Step(before, words[k], measure, maxWidth);
    FoldSnoc(init, words, k, measure, maxWidth);
    OverWideStep(before, words[k], measure, maxWidth);
    assert after.current == words[k];
    FoldSplit(init, words, k + 1, measure, maxWidth);
    if k + 1 == |words| {
      assert words[k + 1..] == [];
      assert words[..k + 1] == words;
    } else {
      var next := Step(after, words[k + 1], measure, maxWidth);
      assert measure(words[k]) <= measure(TestLine(words[k], words[k + 1])) by {
        assert TestLine(words[k], words[k + 1]) == words[k] + (" " + words[k + 1]);
      }
      assert next.lines == after.lines + [words[k]];
      assert words[k + 1..][0] == words[k + 1] && words[k + 1..][1..] == words[k + 2..];
      FoldKeepsLines(next, words[k + 2..], measure, maxWidth);
      assert words[k] in next.lines;
    }
  }

  /** The text of a state: its lines, the one under way included, joined by spaces. */
  function Text(w: Wrap): string {
    Join(Finished(w), ' ')
  }

  /** The lines of a state are all non-empty, and the line under way is empty only before the first word. */
  predicate Started(w: Wrap) {
    && NoEmptyLine(w.lines)
    && (w.current == "" ==> w.lines == [])
  }

  /** A join of non-empty pieces is empty only when there are none. */
  lemma JoinNonEmpty(parts: seq<string>, sep: char)
    requires |parts| > 0 && parts[0] != ""
    ensures Join(parts, sep) != ""
  {
  }

  /** A step with a non-empty word adds the word, after a space unless it is the first. */
  lemma StepText(w: Wrap, word: string, measure: string -> real, maxWidth: real)
    requires Started(w) && word != ""
    ensures Started(Step(w, word, measure, maxWidth))
    ensures Text(Step(w, word, measure, maxWidth)) == if Text(w) == "" then word else Text(w) + " " + word
  {
    var s := Step(w, word, measure, maxWidth);
    if w.current == "" {
      assert Finished(s) == [word];
    } else {
      JoinNonEmpty(Finished(w), ' ');
      if measure(TestLine(w.current, word)) > maxWidth {
        assert Finished(s) == Finished(w) + [word];
        JoinSnoc(Finished(w), word, ' ');
      } else {
        if w.lines == [] {
          assert Finished(s) == [w.current + " " + word];
        } else {
          JoinSnoc(w.lines, w.current, ' ');
          JoinSnoc(w.lines, w.current + " " + word, ' ');
        }
      }
    }
  }

  /** The first `k` non-empty words joined: the first `k - 1` of them, a space and word `k - 1`. */
  lemma JoinPrefix(words: seq<string>, k: nat)
    requires 0 < k <= |words| && forall j :: 0 <= j < |words| ==> words[j] != ""
    ensures Join(words[..k], ' ') == if k == 1 then words[0] else Join(words[..k - 1], ' ') + " " + words[k - 1]
    ensures k > 1 ==> Join(words[..k - 1], ' ') != ""
  {
    assert words[..k] == words[..k - 1] + [words[k - 1]];
    if k > 1 {
      JoinSnoc(words[..k - 1], words[k - 1], ' ');
      JoinNonEmpty(words[..k - 1], ' ');
    } else {
      assert words[..k] == [words[0]];
    }
  }

  /** The loop over the first `k` words holds exactly those words, in order and joined by single spaces. */
  lemma {:induction false} TextPrefix(words: seq<string>, k: nat, measure: string -> real, maxWidth: real)
    requires k <= |words| && forall j :: 0 <= j < |words| ==> words[j] != ""
    ensures Started(Fold(Wrap([], ""), words[..k], measure, maxWidth))
    ensures Text(Fold(Wrap([], ""), words[..k], measure, maxWidth)) == Join(words[..k], ' ')
    decreases k
  {
    if k == 0 {
      assert words[..0] == [];
    } else {
      var prev := Fold(Wrap([], ""), words[..k - 1], measure, maxWidth);
      TextPrefix(words, k - 1, measure, maxWidth);
      FoldSnoc(Wrap([], ""), words, k - 1, measure, maxWidth);
      StepText(prev, words[k - 1], measure, maxWidth);
      JoinPrefix(words, k);
      if k == 1 {
        assert words[..k - 1] == [];
      }
    }
  }

  /**
   * When the title has no empty word (no doubled, leading or trailing space),
   * the wrap loses nothing and reorders nothing: its lines joined by spaces
   * give the title back.
   */
  lemma WrappedKeepsText(title: string, measure: string -> real, maxWidth: real)
    requires forall j :: 0 <= j < |Split(title, ' ')| ==> Split(title, ' ')[j] != ""
    ensures Join(Wrapped(Split(title, ' '), measure, maxWidth), ' ') == title
  {
    var words := Split(title, ' ');
    TextPrefix(words, |words|, measure, maxWidth);
    assert words[..|words|] == words;
    SplitJoin(title, ' ');
  }

  // ---------------------------------------------------------------------------
  // Where the lines are drawn

  /** A `fillText` call: the text and the point it is centred on. */
  datatype Label = Label(text: string, x: int, y: int)

  /** The author line of the upload form's cover, which never shows the real author. */
  const UnknownAuthorLine: string := "by Unknown Author"

  /** `startY = 180 - lines.length * 15` of the upload form's cover. */
  function UploadStart(n: nat): int {
    180 - n * 15
  }

  /**
   * What `generateCoverImage` draws: title line `i` at `startY + 30 * i`, centred
   * on x = 150, then the author placeholder 40 below the slot after the last line.
   */
  function UploadLabels(lines: seq<string>): (labels: seq<Label>)
    ensures |labels| == |lines| + 1
  {
    seq(|lines|, i requires 0 <= i < |lines| => Label(lines[i], 150, UploadStart(|lines|) + i * 30))
      + [Label(UnknownAuthorLine, 150, UploadStart(|lines|) + |lines| * 30 + 40)]
  }

  /**
   * The title lines keep their order 30 apart, centred as a block on y = 165
   * (line `i` and line `n - 1 - i` lie symmetrically about it), all on x = 150,
   * and the author placeholder comes 70 below the last title line, at
   * `180 + 15 * n + 40`.
   */
  lemma UploadLayout(lines: seq<string>)
    ensures var labels := UploadLabels(lines);
      && (forall i :: 0 <= i < |lines| ==> labels[i].text == lines[i] && labels[i].x == 150)
      && (forall i :: 0 <= i < |lines| ==> labels[i].y + labels[|lines| - 1 - i].y == 330)
      && (forall i :: 0 < i < |lines| ==> labels[i].y == labels[i - 1].y + 30)
      && labels[|lines|] == Label(UnknownAuthorLine, 150, 180 + 15 * |lines| + 40)
      && (|lines| > 0 ==> labels[|lines|].y == labels[|lines| - 1].y + 70)
  {
  }

  /** `generateCoverImage(title)`: the wrap at 200 pixels, then the labels. */
  method GenerateCoverImage(title: string, measure: string -> real) returns (labels: seq<Label>)
    ensures labels == UploadLabels(Wrapped(Split(title, ' '), measure, UploadWrapWidth))
  {
    var lines := WrapTitle(title, measure, UploadWrapWidth);
    labels := UploadLabels(lines);
  }

  /**
   * What `generateCleanFallbackCover` draws: title line `i` at y = 200 + 40 * i,
   * centred on x = 200, and `by <author>` at (200, 450) when the author is given
   * and not blank.
   */
  function FallbackLabels(lines: seq<string>, author: string): (labels: seq<Label>)
  {
    seq(|lines|, i requires 0 <= i < |lines| => Label(lines[i], 200, 200 + i * 40))
      + if IsBlank(author) then [] else [Label("by " + author, 200, 450)]
  }

  /**
   * The title lines come first, in order, 40 apart from y = 200; there is an
   * author line exactly when the author is not blank, and it then reads `by`
   * followed by the author as given, untrimmed. Because the author line is
   * fixed at y = 450, it lies below every title line exactly when there are at
   * most seven lines, and the title lines stay on the 600-pixel canvas exactly
   * when there are at most ten.
   */
  lemma FallbackLayout(lines: seq<string>, author: string)
    ensures var labels := FallbackLabels(lines, author);
      && |labels| == |lines| + (if IsBlank(author) then 0 else 1)
      && (forall i :: 0 <= i < |lines| ==> labels[i] == Label(lines[i], 200, 200 + 40 * i))
      && (!IsBlank(author) ==> labels[|lines|] == Label("by " + author, 200, 450))
      && (!IsBlank(author) ==> ((forall i :: 0 <= i < |lines| ==> labels[i].y < labels[|lines|].y) <==> |lines| <= 7))
      && ((forall i :: 0 <= i < |lines| ==> labels[i].y < 600) <==> |lines| <= 10)
  {
    var labels := FallbackLabels(lines, author);
    if |lines| > 7 {
      assert labels[7].y == 480;
    }
    if |lines| > 10 {
      assert labels[10].y == 600;
    }
  }

  /** `generateCleanFallbackCover(title, author)`: the wrap at 350 pixels, then the labels. */
  method GenerateCleanFallbackCover(title: string, author: string, measure: string -> real) returns (labels: seq<Label>)
    ensures labels == FallbackLabels(Wrapped(Split(title, ' '), measure, FallbackWrapWidth), author)
  {
    var lines := WrapTitle(title, measure, FallbackWrapWidth);
    labels := FallbackLabels(lines, author);
  }
}
