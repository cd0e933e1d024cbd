// src/lib/utils/htmlpaint/renderTextRow.ts: laying out the words of a row of spans
// into lines no wider than the bounding width, and drawing them. `ctx.measureText` under
// a font is a parameter `measure(font, text)` giving whole units; the canvas is a list of
// the `fillText` calls made, each with the font and fill style set for it.

module RenderTextRow {
  import opened Common
  import opened HtmlPaint

  /** `ctx.measureText(text).width` with `ctx.font` set to `font`. */
  type Measure = (string, string) -> int

  /** One `ctx.fillText(text, x, y)` call under the font and fill style set before it. */
  datatype DrawWord = DrawWord(text: string, x: int, y: int, font: string, fillStyle: string)

  /** The width one word adds under `font`: the word, and a space when one follows it. */
  function WordWidth(measure: Measure, font: string, w: Word): int {
    measure(font, w.word) + (if w.hasSpaceAfter then measure(font, " ") else 0)
  }

  /** `measureLineWidth(ctx, line)`: the widths of the words of the line summed, every
    * word measured under the same current font. */
  function MeasureLineWidth(measure: Measure, font: string, line: seq<Word>): int {
    if line == [] then 0
    else MeasureLineWidth(measure, font, line[..|line| - 1]) + WordWidth(measure, font, line[|line| - 1])
  }

  /** The width of a line is the sum of the widths of its parts. */
  lemma {:induction false} MeasureLineWidthAppend(measure: Measure, font: string, a: seq<Word>, b: seq<Word>)
    ensures MeasureLineWidth(measure, font, a + b) == MeasureLineWidth(measure, font, a) + MeasureLineWidth(measure, font, b)
    decreases |b|
  {
    if b == [] {
      assert a + b == a;
    } else {
      assert (a + b)[..|a + b| - 1] == a + b[..|b| - 1];
      MeasureLineWidthAppend(measure, font, a, b[..|b| - 1]);
    }
  }

  /** The words of the lines, one line after another. */
  function Concat(lines: seq<seq<Word>>): seq<Word> {
    if lines == [] then [] else Concat(lines[..|lines| - 1]) + lines[|lines| - 1]
  }

  /** No line is empty. */
  predicate NoEmptyLine(lines: seq<seq<Word>>) {
    forall i :: 0 <= i < |lines| ==> lines[i] != []
  }

  /** `processWordIntoLines(ctx, lines, word, boundingWidth)`: the word ends the last line,
    * unless that line is not empty and with the word it is wider than `boundingWidth + 5`
    * under the word's font; then it starts a line of its own. */
  function ProcessWordIntoLines(measure: Measure, lines: seq<seq<Word>>, word: Word, boundingWidth: int)
    : (r: seq<seq<Word>>)
    ensures |r| > 0 && r[|r| - 1] != [] && r[|r| - 1][|r[|r| - 1]| - 1] == word
  {
    var currentLine := if lines == [] then [] else lines[|lines| - 1];
    var testLine := currentLine + [word];
    var testWidth := MeasureLineWidth(measure, word.styles.font, testLine);
    if testWidth > boundingWidth + 5 && |currentLine| > 0 then lines + [[word]]
    else if lines == [] then [[word]]
    else lines[..|lines| - 1] + [testLine]
  }

  /** A word starts a new line exactly when the last line is not empty and cannot take
    * it; otherwise it joins the last line, which then still fits unless the word is alone
    * on it. Either way the words stay in order and no line is left empty. */
  lemma ProcessWordIntoLinesPlaces(measure: Measure, lines: seq<seq<Word>>, word: Word, boundingWidth: int)
    ensures var r := ProcessWordIntoLines(measure, lines, word, boundingWidth);
      && Concat(r) == Concat(lines) + [word]
      && (NoEmptyLine(lines) ==> NoEmptyLine(r))
      && |lines| <= |r| <= |lines| + 1
      && (forall i :: 0 <= i < |lines| - 1 ==> r[i] == lines[i])
      && (|r| == |lines| + 1 <==>
            lines == [] || (lines[|lines| - 1] != [] &&
                            MeasureLineWidth(measure, word.styles.font, lines[|lines| - 1] + [word]) > boundingWidth + 5))
      && (|r| == |lines| + 1 ==> r == lines + [[word]])
      && (|r| == |lines| ==> r == lines[..|lines| - 1] + [lines[|lines| - 1] + [word]])
      && (|r| == |lines| ==>
            |r[|r| - 1]| == 1 || MeasureLineWidth(measure, word.styles.font, r[|r| - 1]) <= boundingWidth + 5)
  {
    var r := ProcessWordIntoLines(measure, lines, word, boundingWidth);
    if lines == [] {
      assert r == [[word]];
      assert [[word]][..0] == [];
    } else {
      var currentLine := lines[|lines| - 1];
      if |r| == |lines| + 1 {
        assert r[..|r| - 1] == lines;
      } else {
        assert r[..|r| - 1] == lines[..|lines| - 1];
        assert lines == lines[..|lines| - 1] + [currentLine];
        assert Concat(lines) == Concat(lines[..|lines| - 1]) + currentLine;
        assert Concat(r) == Concat(lines[..|lines| - 1]) + (currentLine + [word]);
      }
    }
  }

  /** `words.reduce(processWordIntoLines, [])`: the lines of the row. */
  function Lines(measure: Measure, words: seq<Word>, boundingWidth: int): seq<seq<Word>> {
    if words == [] then []
    else ProcessWordIntoLines(measure, Lines(measure, words[..|words| - 1], boundingWidth), words[|words| - 1], boundingWidth)
  }

  /** The lines hold every word, in order, and none is empty. */
  lemma {:induction false} LinesKeepWords(measure: Measure, words: seq<Word>, boundingWidth: int)
    ensures Concat(Lines(measure, words, boundingWidth)) == words
    ensures NoEmptyLine(Lines(measure, words, boundingWidth))
    ensures |Lines(measure, words, boundingWidth)| <= |words|
  {
    if words != [] {
      assert words == words[..|words| - 1] + [words[|words| - 1]];
      LinesKeepWords(measure, words[..|words| - 1], boundingWidth);
      ProcessWordIntoLinesPlaces(measure, Lines(measure, words[..|words| - 1], boundingWidth), words[|words| - 1], boundingWidth);
    }
  }

  /** Every line of more than one word is no wider than `boundingWidth + 5` under the
    * font of its last word. */
  predicate LinesWithin(measure: Measure, lines: seq<seq<Word>>, boundingWidth: int) {
    forall i :: 0 <= i < |lines| && |lines[i]| > 1 ==>
      MeasureLineWidth(measure, lines[i][|lines[i]| - 1].styles.font, lines[i]) <= boundingWidth + 5
  }

  /** Placing a word keeps every line of more than one word within the width. */
  lemma WithinStep(measure: Measure, lines: seq<seq<Word>>, word: Word, boundingWidth: int)
    requires LinesWithin(measure, lines, boundingWidth)
    ensures LinesWithin(measure, ProcessWordIntoLines(measure, lines, word, boundingWidth), boundingWidth)
  {
    var after: seq<seq<Word>> := ProcessWordIntoLines(measure, lines, word, boundingWidth);
    if lines != [] && |after| == |lines| {
      var last := lines[|lines| - 1];
      assert after == lines[..|lines| - 1] + [last + [word]];
      assert forall i :: 0 <= i < |lines| - 1 ==> after[i] == lines[i];
      assert after[|after| - 1] == last + [word];
      assert (last + [word])[|last + [word]| - 1] == word;
    } else if lines != [] {
      assert after == lines + [[word]];
      assert forall i :: 0 <= i < |lines| ==> after[i] == lines[i];
    }
  }

  /** The lines of a row keep within the bounding width, but for lines of one word. */
  lemma {:induction false} LinesFit(measure: Measure, words: seq<Word>, boundingWidth: int)
    ensures LinesWithin(measure, Lines(measure, words, boundingWidth), boundingWidth)
  {
    if words != [] {
      LinesFit(measure, words[..|words| - 1], boundingWidth);
      WithinStep(measure, Lines(measure, words[..|words| - 1], boundingWidth), words[|words| - 1], boundingWidth);
    }
  }

  /** Every line but the last could not have taken the first word of the next one, under
    * that word's font. */
  predicate BreaksWhenFull(measure: Measure, lines: seq<seq<Word>>, boundingWidth: int) {
    forall i :: 0 <= i < |lines| - 1 && lines[i + 1] != [] ==>
      MeasureLineWidth(measure, lines[i + 1][0].styles.font, lines[i] + [lines[i + 1][0]]) > boundingWidth + 5
  }

  /** Placing a word keeps every line break where the next word did not fit. */
  lemma BreaksStep(measure: Measure, lines: seq<seq<Word>>, word: Word, boundingWidth: int)
    requires BreaksWhenFull(measure, lines, boundingWidth) && NoEmptyLine(lines)
    ensures BreaksWhenFull(measure, ProcessWordIntoLines(measure, lines, word, boundingWidth), boundingWidth)
  {
    var after: seq<seq<Word>> := ProcessWordIntoLines(measure, lines, word, boundingWidth);
    if lines != [] && |after| == |lines| {
      var last := lines[|lines| - 1];
      assert after == lines[..|lines| - 1] + [last + [word]];
      assert forall i :: 0 <= i < |lines| - 1 ==> after[i] == lines[i];
      assert after[|after| - 1][0] == last[0];
    } else if lines != [] {
      assert after == lines + [[word]];
      assert forall i :: 0 <= i < |lines| ==> after[i] == lines[i];
    }
  }

  /** A line ends only when it could not take the first word of the next one. */
  lemma {:induction false} LinesBreakWhenFull(measure: Measure, words: seq<Word>, boundingWidth: int)
    ensures BreaksWhenFull(measure, Lines(measure, words, boundingWidth), boundingWidth)
  {
    if words != [] {
      LinesBreakWhenFull(measure, words[..|words| - 1], boundingWidth);
      LinesKeepWords(measure, words[..|words| - 1], boundingWidth);
      BreaksStep(measure, Lines(measure, words[..|words| - 1], boundingWidth), words[|words| - 1], boundingWidth);
    }
  }

  /** How far the pen moves over the words, each measured under its own font. */
  function Advance(measure: Measure, ws: seq<Word>): int {
    if ws == [] then 0
    else Advance(measure, ws[..|ws| - 1]) + WordWidth(measure, ws[|ws| - 1].styles.font, ws[|ws| - 1])
  }

  lemma AdvanceStep(measure: Measure, line: seq<Word>, i: nat)
    requires i < |line|
    ensures Advance(measure, line[..i + 1]) == Advance(measure, line[..i]) + WordWidth(measure, line[i].styles.font, line[i])
  {
    assert line[..i + 1][..i] == line[..i];
  }

  /** Over a line set in one font, the pen moves by the width the layout measured. */
  lemma {:induction false} OneFontAdvance(measure: Measure, font: string, line: seq<Word>)
    requires forall i :: 0 <= i < |line| ==> line[i].styles.font == font
    ensures Advance(measure, line) == MeasureLineWidth(measure, font, line)
  {
    if line != [] {
      OneFontAdvance(measure, font, line[..|line| - 1]);
    }
  }

  /** A laid-out line of more than one word, all in one font, is drawn no further than
    * `boundingWidth + 5` past its start. */
  lemma OneFontLineDrawnWithin(measure: Measure, words: seq<Word>, boundingWidth: int, i: nat)
    requires i < |Lines(measure, words, boundingWidth)|
    requires var line := Lines(measure, words, boundingWidth)[i];
      |line| > 1 && forall k :: 0 <= k < |line| ==> line[k].styles.font == line[0].styles.font
    ensures Advance(measure, Lines(measure, words, boundingWidth)[i]) <= boundingWidth + 5
  {
    var line := Lines(measure, words, boundingWidth)[i];
    LinesFit(measure, words, boundingWidth);
    OneFontAdvance(measure, line[0].styles.font, line);
  }

  /** The calls that draw a line from `(x, y)`: each word at the pen position after the
    * words before it, under its own font and fill style. */
  function LineCalls(measure: Measure, line: seq<Word>, x: int, y: int): (calls: seq<DrawWord>)
    ensures |calls| == |line|
  {
    seq(|line|, i requires 0 <= i < |line| =>
      DrawWord(line[i].word, x + Advance(measure, line[..i]), y, line[i].styles.font, line[i].styles.fillStyle))
  }

  /** `renderLine(ctx, line, x, y)`: draws each word where the previous ones end. */
  method RenderLine(measure: Measure, line: seq<Word>, x: int, y: int) returns (calls: seq<DrawWord>)
    ensures calls == LineCalls(measure, line, x, y)
  {
    var currentX := x;
    calls := [];
    for i := 0 to |line|
      invariant currentX == x + Advance(measure, line[..i])
      invariant |calls| == i
      invariant forall k :: 0 <= k < i ==> calls[k] == LineCalls(measure, line, x, y)[k]
    {
      var word := line[i];
      calls := calls + [DrawWord(word.word, currentX, y, word.styles.font, word.styles.fillStyle)];
      currentX := currentX + measure(word.styles.font, word.word);
      if word.hasSpaceAfter {
        currentX := currentX + measure(word.styles.font, " ");
      }
      AdvanceStep(measure, line, i);
    }
  }

  /** The height of the lines: the font size of the first word of each. */
  function Height(lines: seq<seq<Word>>): int
    requires NoEmptyLine(lines)
  {
    if lines == [] then 0
    else Height(lines[..|lines| - 1]) + lines[|lines| - 1][0].styles.fontSize
  }

  /** The calls that draw the lines from `(x, y)`, each line one font size of its first
    * word below the one before. */
  function RowCalls(measure: Measure, lines: seq<seq<Word>>, x: int, y: int): seq<DrawWord>
    requires NoEmptyLine(lines)
  {
    if lines == [] then []
    else
      var before := lines[..|lines| - 1];
      RowCalls(measure, before, x, y) + LineCalls(measure, lines[|lines| - 1], x, y + Height(before))
  }

  /** Drawing one more line extends the calls of the lines before it. */
  lemma RowStep(measure: Measure, lines: seq<seq<Word>>, i: nat, x: int, y: int, calls: seq<DrawWord>, lineCalls: seq<DrawWord>)
    requires i < |lines| && NoEmptyLine(lines)
    requires NoEmptyLine(lines[..i]) && calls == RowCalls(measure, lines[..i], x, y)
    requires lineCalls == LineCalls(measure, lines[i], x, y + Height(lines[..i]))
    ensures NoEmptyLine(lines[..i + 1])
    ensures Height(lines[..i + 1]) == Height(lines[..i]) + lines[i][0].styles.fontSize
    ensures calls + lineCalls == RowCalls(measure, lines[..i + 1], x, y)
  {
    assert lines[..i + 1][..i] == lines[..i];
  }

  /** The row draws every word of the lines, in order, with its font and fill style. */
  lemma {:induction false} RowCallsDrawEveryWord(measure: Measure, lines: seq<seq<Word>>, x: int, y: int)
    requires NoEmptyLine(lines)
    ensures var calls := RowCalls(measure, lines, x, y);
      |calls| == |Concat(lines)| &&
      forall k :: 0 <= k < |calls| ==>
        calls[k].text == Concat(lines)[k].word && calls[k].font == Concat(lines)[k].styles.font &&
        calls[k].fillStyle == Concat(lines)[k].styles.fillStyle
  {
    if lines != [] {
      RowCallsDrawEveryWord(measure, lines[..|lines| - 1], x, y);
    }
  }

  /** `renderTextRow(ctx, row, x, y, boundingWidth)`: the words of the row laid out in
    * lines and drawn line by line from `(x, y)`; it throws exactly when
    * `flatMapOfText` does. Every word is drawn once, in order, in its own style. */
  method RenderTextRow(measure: Measure, row: AstNode, x: int, y: int, boundingWidth: int)
    returns (r: Result<seq<DrawWord>>)
    requires row.ElementNode?
    ensures r.Ok? <==> FlatMapOfText(row.children).Ok?
    ensures r.Ok? ==> var words := FlatMapOfText(row.children).value;
      var lines := Lines(measure, words, boundingWidth);
      NoEmptyLine(lines) && r.value == RowCalls(measure, lines, x, y) &&
      |r.value| == |words| &&
      forall k :: 0 <= k < |words| ==> r.value[k].text == words[k].word && r.value[k].font == words[k].styles.font
  {
    var flat := FlatMapOfText(row.children);
    if flat.Err? {
      return Err(flat.msg);
    }
    var words := flat.value;
    var lines := Lines(measure, words, boundingWidth);
    LinesKeepWords(measure, words, boundingWidth);
    var calls := RenderLines(measure, lines, x, y);
    RowCallsDrawEveryWord(measure, lines, x, y);
    r := Ok(calls);
  }

  /** `lines.forEach(...)`: each line drawn below the one before, by the font size of
    * its first word. */
  method RenderLines(measure: Measure, lines: seq<seq<Word>>, x: int, y: int) returns (calls: seq<DrawWord>)
    requires NoEmptyLine(lines)
    ensures calls == RowCalls(measure, lines, x, y)
  {
    var currentY := y;
    calls := [];
    for i := 0 to |lines|
      invariant NoEmptyLine(lines[..i])
      invariant currentY == y + Height(lines[..i])
      invariant calls == RowCalls(measure, lines[..i], x, y)
    {
      var lineCalls := RenderLine(measure, lines[i], x, currentY);
      RowStep(measure, lines, i, x, y, calls, lineCalls);
      calls := calls + lineCalls;
      currentY := currentY + lines[i][0].styles.fontSize;
    }
    assert lines[..|lines|] == lines;
  }
}
