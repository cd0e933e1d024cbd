// src/lib/utils/htmlpaint/fillTextWithWrap.ts: word wrapping of a plain text node by a
// binary search for the longest run of words that fits. `ctx.measureText(s).width` is a
// parameter `measure` giving whole units; the canvas is a list of the `fillText` calls
// made.

module FillText {
  import opened Common
  import opened Strings

  /** `ctx.measureText(text).width` under the context's current font. */
  type Measure = string -> int

  /** One `ctx.fillText(text, x, y)` call. */
  datatype TextCall = TextCall(text: string, x: int, y: int)

  /** `words.slice(start, end).join(' ')` is at most `boundingWidth + 10` wide. */
  predicate Fits(measure: Measure, words: seq<string>, start: nat, end: nat, boundingWidth: int)
    requires start <= end <= |words|
  {
    measure(Join(words[start..end], " ")) <= boundingWidth + 10
  }

  /** Where the search of `findMaxFittingWords` may stop: an end whose line fits (or
    * `start` itself) whose line with one more word does not. */
  predicate IsSearchResult(measure: Measure, words: seq<string>, start: nat, boundingWidth: int, end: nat)
    requires start <= |words|
  {
    && start <= end <= |words|
    && (end == start || Fits(measure, words, start, end, boundingWidth))
    && (end < |words| ==> !Fits(measure, words, start, end + 1, boundingWidth))
  }

  /** The binary search of `findMaxFittingWords`: `lastValid` is the end of the last
    * tested line that fit, `start` when none did. */
  method SearchLastValid(measure: Measure, words: seq<string>, start: nat, boundingWidth: int)
    returns (lastValid: nat)
    requires start <= |words|
    ensures IsSearchResult(measure, words, start, boundingWidth, lastValid)
  {
    var low := start;
    var high := |words|;
    lastValid := start;
    while low < high
      invariant start <= low <= high <= |words|
      invariant lastValid == low
      invariant low == start || Fits(measure, words, start, low, boundingWidth)
      invariant high < |words| ==> !Fits(measure, words, start, high + 1, boundingWidth)
      decreases high - low
    {
      var mid := (low + high) / 2;
      var testLine := Join(words[start..mid + 1], " ");
      if measure(testLine) <= boundingWidth + 10 {
        lastValid := mid + 1;
        low := mid + 1;
      } else {
        high := mid;
      }
    }
  }

  /** When the width of a line only grows with its words, the search finds the longest
    * line that fits. */
  lemma SearchFindsLongestLine(measure: Measure, words: seq<string>, start: nat, boundingWidth: int, end: nat)
    requires start <= |words| && IsSearchResult(measure, words, start, boundingWidth, end)
    requires forall e1, e2 :: start < e1 <= e2 <= |words| ==>
      measure(Join(words[start..e1], " ")) <= measure(Join(words[start..e2], " "))
    ensures forall e :: end < e <= |words| ==> !Fits(measure, words, start, e, boundingWidth)
  {
  }

  /** The guard of `findMaxFittingWords` as written: it throws only when `lastValid` is 0. */
  function GuardAsWritten(lastValid: nat): (r: Result<nat>)
    ensures r.Ok? <==> lastValid != 0
    ensures r.Ok? ==> r.value == lastValid
  {
    if lastValid == 0 then Err("infinite loop avoided, cannot render resume") else Ok(lastValid)
  }

  /** The guard it evidently intends: throw when no word was taken, so that the caller's
    * loop always moves on. */
  function Guard(start: nat, lastValid: nat): (r: Result<nat>)
    ensures r.Ok? <==> lastValid != start
    ensures r.Ok? ==> r.value == lastValid
  {
    if lastValid == start then Err("infinite loop avoided, cannot render resume") else Ok(lastValid)
  }

  /** `findMaxFittingWords` as written: past the first line it may return `start`. */
  method FindMaxFittingWordsAsWritten(measure: Measure, words: seq<string>, start: nat, boundingWidth: int)
    returns (r: Result<nat>)
    requires start <= |words|
    ensures r.Ok? ==> r.value > 0 && IsSearchResult(measure, words, start, boundingWidth, r.value)
    ensures r.Err? ==> start == 0 && IsSearchResult(measure, words, start, boundingWidth, 0)
  {
    var lastValid := SearchLastValid(measure, words, start, boundingWidth);
    r := GuardAsWritten(lastValid);
  }

  /** `findMaxFittingWords` with the intended guard: the end of the longest line from
    * `start` the search finds, past `start`; an error exactly when it takes no word,
    * which means the word at `start` does not fit on a line of its own. */
  method FindMaxFittingWords(measure: Measure, words: seq<string>, start: nat, boundingWidth: int)
    returns (r: Result<nat>)
    requires start < |words|
    ensures r.Ok? ==> start < r.value && IsSearchResult(measure, words, start, boundingWidth, r.value)
    ensures r.Err? ==> !Fits(measure, words, start, start + 1, boundingWidth)
  {
    var lastValid := SearchLastValid(measure, words, start, boundingWidth);
    r := Guard(start, lastValid);
  }

  /** Widths ten times the length of the text. */
  function TenPerChar(s: string): int {
    10 * |s|
  }

  /** The guard as written lets the search stall: for "a WWWWW" in a box 0 wide, the
    * first line is "a", and from the second word on every search returns its start,
    * which the guard accepts, so `getWrappedLines` pushes empty lines forever. */
  lemma WrapStallsAsWritten()
    ensures forall e :: IsSearchResult(TenPerChar, ["a", "WWWWW"], 0, 0, e) ==> e == 1
    ensures forall e :: IsSearchResult(TenPerChar, ["a", "WWWWW"], 1, 0, e) ==> e == 1
    ensures GuardAsWritten(1) == Ok(1)
    ensures Guard(1, 1).Err?
  {
    var words := ["a", "WWWWW"];
    assert words[0..1] == ["a"] && words[0..2] == words && words[1..2] == ["WWWWW"];
    assert Join(words, " ") == "a WWWWW";
    assert Join(["a"], " ") == "a";
    assert Join(["WWWWW"], " ") == "WWWWW";
  }

  /** The facts that carry `getWrappedLines` from one line to the next: the line of words
    * `start..end` joins onto the text so far, starts with the word at `start`, and with
    * the word at `end` added it is the line the search found too wide. */
  lemma NextLine(words: seq<string>, start: nat, end: nat)
    requires start < end <= |words|
    requires forall k :: 0 <= k < |words| ==> ' ' !in words[k]
    ensures start > 0 ==> Join(words[..end], " ") == Join(words[..start], " ") + " " + Join(words[start..end], " ")
    ensures start == 0 ==> Join(words[..end], " ") == Join(words[start..end], " ")
    ensures Split(Join(words[start..end], " "), ' ')[0] == words[start]
    ensures end < |words| ==> Join(words[start..end + 1], " ") == Join(words[start..end], " ") + " " + words[end]
  {
    JoinPrefix(words, start, end);
    var line := words[start..end];
    assert forall k :: 0 <= k < |line| ==> ' ' !in line[k] by {
      forall k | 0 <= k < |line| ensures ' ' !in line[k] {
        assert line[k] == words[start + k];
      }
    }
    SplitJoin(line, ' ');
    if end < |words| {
      JoinOneMore(words, start, end);
    }
  }

  lemma JoinPrefix(words: seq<string>, start: nat, end: nat)
    requires start < end <= |words|
    ensures start > 0 ==> Join(words[..end], " ") == Join(words[..start], " ") + " " + Join(words[start..end], " ")
    ensures start == 0 ==> Join(words[..end], " ") == Join(words[start..end], " ")
  {
    if start > 0 {
      assert words[..end] == words[..start] + words[start..end];
      JoinAppend(words[..start], words[start..end], " ");
    } else {
      assert words[..end] == words[start..end];
    }
  }

  lemma JoinOneMore(words: seq<string>, start: nat, end: nat)
    requires start < end < |words|
    ensures Join(words[start..end + 1], " ") == Join(words[start..end], " ") + " " + words[end]
  {
    assert words[start..end + 1] == words[start..end] + [words[end]];
    JoinAppend(words[start..end], [words[end]], " ");
  }

  /** What `getWrappedLines` keeps while it wraps: the lines so far join into the first
    * `start` words, each fits, and none could have taken the first word that follows it. */
  predicate Wrapped(measure: Measure, words: seq<string>, boundingWidth: int, lines: seq<string>, start: nat)
  {
    && start <= |words| && |lines| <= start
    && (start == 0 <==> lines == [])
    && (start > 0 ==> Join(lines, " ") == Join(words[..start], " "))
    && (forall i :: 0 <= i < |lines| ==> measure(lines[i]) <= boundingWidth + 10)
    && (forall i :: 0 <= i < |lines| - 1 ==> measure(lines[i] + " " + Split(lines[i + 1], ' ')[0]) > boundingWidth + 10)
    && (lines != [] && start < |words| ==> measure(lines[|lines| - 1] + " " + words[start]) > boundingWidth + 10)
  }

  /** Pushing the line of words `start..end` the search found keeps the wrapping state. */
  lemma WrapStep(measure: Measure, words: seq<string>, boundingWidth: int, lines: seq<string>, start: nat, end: nat)
    requires forall k :: 0 <= k < |words| ==> ' ' !in words[k]
    requires Wrapped(measure, words, boundingWidth, lines, start) && start < end
    requires IsSearchResult(measure, words, start, boundingWidth, end)
    ensures Wrapped(measure, words, boundingWidth, lines + [Join(words[start..end], " ")], end)
  {
    var line := Join(words[start..end], " ");
    NextLine(words, start, end);
    if lines != [] {
      JoinAppend(lines, [line], " ");
    }
    var next := lines + [line];
    assert forall i :: 0 <= i < |lines| ==> next[i] == lines[i];
  }

  /** How the loop of `getWrappedLines` as written ends: with its lines, by the error
    * `findMaxFittingWords` throws, or not at all. It stalls once a search returns its
    * own `start`: from then on every round pushes an empty line and leaves `start` as
    * it was. */
  datatype WrapOutcome = Lines(lines: seq<string>) | Thrown(msg: string) | Stalled(lines: seq<string>, start: nat)

  /** `getWrappedLines(ctx, text, boundingWidth)` as written. It throws only when the
    * first word does not fit on its own; it stalls at a later word that does not fit on
    * its own; otherwise the lines join back into the text, each fits, and none could
    * have taken the first word of the next. */
  method GetWrappedLines(measure: Measure, text: string, boundingWidth: int) returns (r: WrapOutcome)
    ensures r.Thrown? ==> measure(Split(text, ' ')[0]) > boundingWidth + 10
    ensures r.Stalled? ==> var words := Split(text, ' ');
      && 0 < r.start < |words| && measure(words[r.start]) > boundingWidth + 10
      && Wrapped(measure, words, boundingWidth, r.lines, r.start)
    ensures r.Lines? ==> 0 < |r.lines| <= |Split(text, ' ')| && Join(r.lines, " ") == text
    ensures r.Lines? ==> forall i :: 0 <= i < |r.lines| ==> measure(r.lines[i]) <= boundingWidth + 10
    ensures r.Lines? ==> forall i :: 0 <= i < |r.lines| - 1 ==>
      measure(r.lines[i] + " " + Split(r.lines[i + 1], ' ')[0]) > boundingWidth + 10
  {
    var words := Split(text, ' ');
    var lines: seq<string> := [];
    var start := 0;
    var totalWords := |words|;
    while start < totalWords
      invariant Wrapped(measure, words, boundingWidth, lines, start)
      decreases totalWords - start
    {
      var found := FindMaxFittingWordsAsWritten(measure, words, start, boundingWidth);
      if found.Err? {
        assert words[0..1] == [words[0]];
        return Thrown(found.msg);
      }
      if found.value == start {
        assert words[start..start + 1] == [words[start]];
        return Stalled(lines, start);
      }
      WrapStep(measure, words, boundingWidth, lines, start, found.value);
      lines := lines + [Join(words[start..found.value], " ")];
      start := found.value;
    }
    assert words[..start] == words;
    JoinSplit(text, ' ');
    r := Lines(lines);
  }

  /** `getWrappedLines(ctx, text, boundingWidth)` with the intended guard: the lines join
    * back into the text, each fits in `boundingWidth + 10`, and none could have taken the
    * first word of the next. It throws only when some word does not fit on its own. */
  method GetWrappedLinesIntended(measure: Measure, text: string, boundingWidth: int) returns (r: Result<seq<string>>)
    ensures r.Err? ==> exists k :: 0 <= k < |Split(text, ' ')| && measure(Split(text, ' ')[k]) > boundingWidth + 10
    ensures r.Ok? ==> 0 < |r.value| <= |Split(text, ' ')| && Join(r.value, " ") == text
    ensures r.Ok? ==> forall i :: 0 <= i < |r.value| ==> measure(r.value[i]) <= boundingWidth + 10
    ensures r.Ok? ==> forall i :: 0 <= i < |r.value| - 1 ==>
      measure(r.value[i] + " " + Split(r.value[i + 1], ' ')[0]) > boundingWidth + 10
  {
    var words := Split(text, ' ');
    var lines: seq<string> := [];
    var start := 0;
    var totalWords := |words|;
    while start < totalWords
      invariant Wrapped(measure, words, boundingWidth, lines, start)
      decreases totalWords - start
    {
      var found := FindMaxFittingWords(measure, words, start, boundingWidth);
      if found.Err? {
        assert words[start..start + 1] == [words[start]];
        return Err(found.msg);
      }
      WrapStep(measure, words, boundingWidth, lines, start, found.value);
      lines := lines + [Join(words[start..found.value], " ")];
      start := found.value;
    }
    assert words[..start] == words;
    JoinSplit(text, ' ');
    r := Ok(lines);
  }

  /** The `forEach` of `fillTextWithWrap`: line `i` is drawn at `x`, `i` font sizes below `y`. */
  method DrawLines(lines: seq<string>, x: int, y: int, fontSize: int) returns (calls: seq<TextCall>)
    ensures |calls| == |lines| && Texts(calls) == lines
    ensures forall i :: 0 <= i < |calls| ==> calls[i] == TextCall(lines[i], x, y + i * fontSize)
  {
    calls := [];
    for index := 0 to |lines|
      invariant |calls| == index
      invariant forall i :: 0 <= i < index ==> calls[i] == TextCall(lines[i], x, y + i * fontSize)
    {
      calls := calls + [TextCall(lines[index], x, y + index * fontSize)];
    }
  }

  /** What `fillTextWithWrap` does: the text calls it makes, the error it throws, or
    * never returning, when `getWrappedLines` stalls. */
  datatype FillOutcome = Drawn(calls: seq<TextCall>) | Threw(msg: string) | Hangs

  /** `fillTextWithWrap(ctx, node, details)` as written: nothing for a null or empty
    * text; it throws when the first word does not fit in `boundingWidth + 20` and hangs
    * at a later word that does not; otherwise it draws the wrapped lines, each fitting
    * in `boundingWidth + 20`, at `x`, one font size apart from `y` down, joining back into
    * the text. */
  method FillTextWithWrap(measure: Measure, textContent: Option<string>, x: int, y: int, fontSize: int, boundingWidth: int)
    returns (r: FillOutcome)
    ensures (textContent.None? || textContent.value == "") ==> r == Drawn([])
    ensures r.Threw? ==> textContent.Some? && measure(Split(textContent.value, ' ')[0]) > boundingWidth + 20
    ensures r.Hangs? ==> textContent.Some?
    ensures r.Hangs? ==>
      exists k :: 0 < k < |Split(textContent.value, ' ')| && measure(Split(textContent.value, ' ')[k]) > boundingWidth + 20
    ensures r.Drawn? && textContent.Some? && textContent.value != "" ==>
      |r.calls| > 0 && Join(Texts(r.calls), " ") == textContent.value
    ensures r.Drawn? ==> forall i :: 0 <= i < |r.calls| ==>
      r.calls[i].x == x && r.calls[i].y == y + i * fontSize && measure(r.calls[i].text) <= boundingWidth + 20
  {
    if textContent.None? || textContent.value == "" {
      return Drawn([]);
    }
    var lines := GetWrappedLines(measure, textContent.value, boundingWidth + 10);
    match lines
    case Thrown(msg) =>
      return Threw(msg);
    case Stalled(_, _) =>
      return Hangs;
    case Lines(ls) =>
      var calls := DrawLines(ls, x, y, fontSize);
      return Drawn(calls);
  }

  /** `fillTextWithWrap(ctx, node, details)` over the intended `getWrappedLines`: nothing
    * for a null or empty text; otherwise the wrapped lines, each fitting in
    * `boundingWidth + 20`, drawn at `x`, one font size apart from `y` down, joining back
    * into the text; it throws only when some word does not fit on its own. */
  method FillTextWithWrapIntended(measure: Measure, textContent: Option<string>, x: int, y: int, fontSize: int, boundingWidth: int)
    returns (r: Result<seq<TextCall>>)
    ensures (textContent.None? || textContent.value == "") ==> r == Ok([])
    ensures r.Err? ==> textContent.Some?
    ensures r.Err? ==>
      exists k :: 0 <= k < |Split(textContent.value, ' ')| && measure(Split(textContent.value, ' ')[k]) > boundingWidth + 20
    ensures r.Ok? && textContent.Some? && textContent.value != "" ==>
      |r.value| > 0 && Join(Texts(r.value), " ") == textContent.value
    ensures r.Ok? ==> forall i :: 0 <= i < |r.value| ==>
      r.value[i].x == x && r.value[i].y == y + i * fontSize && measure(r.value[i].text) <= boundingWidth + 20
  {
    if textContent.None? || textContent.value == "" {
      return Ok([]);
    }
    var lines := GetWrappedLinesIntended(measure, textContent.value, boundingWidth + 10);
    if lines.Err? {
      return Err(lines.msg);
    }
    var calls := DrawLines(lines.value, x, y, fontSize);
    r := Ok(calls);
  }

  /** The texts of the calls, in order. */
  function Texts(calls: seq<TextCall>): (ts: seq<string>)
    ensures |ts| == |calls| && forall i :: 0 <= i < |calls| ==> ts[i] == calls[i].text
  {
    if calls == [] then [] else Texts(calls[..|calls| - 1]) + [calls[|calls| - 1].text]
  }
}
