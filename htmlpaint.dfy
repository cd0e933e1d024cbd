// src/lib/utils/htmlpaint/htmlpaint.ts: the helpers that turn a row of the parsed HTML
// tree into the words `renderTextRow` lays out. The canvas, the CSS parsing of
// `getStylesForSpan` and the float geometry of the file are not modelled: an element
// carries the styles `getStylesForSpan` computes for it.

module HtmlPaint {
  import opened Common
  import opened Strings

  /** `getStylesForSpan(row)`: the font, the fill style and the font size of a span. */
  datatype Styles = Styles(font: string, fillStyle: string, fontSize: int)

  /** A node of the parsed tree: a text node (`type: 'string'`), whose text may be null, or
    * an element with its tag ('span', 'p', 'ul', 'li' or 'a'), styles and children. */
  datatype AstNode =
    | TextNode(textContent: Option<string>)
    | ElementNode(tag: string, styles: Styles, children: seq<AstNode>)

  /** A word to draw, with the styles of its span and whether a space follows it. */
  datatype Word = Word(word: string, styles: Styles, hasSpaceAfter: bool)

  /** The text node `getTextNodeFromSpan` finds and the element holding it. */
  datatype SpanText = SpanText(textNode: Option<string>, parent: AstNode)

  /** The first children of `node` lead through 'a' elements to a text node. */
  predicate EndsInText(node: AstNode)
    requires node.ElementNode?
  {
    && |node.children| > 0
    && var first := node.children[0];
       first.TextNode? || (first.tag == "a" && EndsInText(first))
  }

  /** `getTextNodeFromSpan(node)`: follows first children through 'a' elements to a text
    * node and returns it with its parent; throws when a first child is another element,
    * and on an element without children (reading `.type` of undefined). */
  function GetTextNodeFromSpan(node: AstNode): (r: Result<SpanText>)
    requires node.ElementNode?
    ensures r.Ok? <==> EndsInText(node)
    ensures r.Ok? ==> r.value.parent.ElementNode? && |r.value.parent.children| > 0 &&
                      r.value.parent.children[0] == TextNode(r.value.textNode)
    ensures r.Ok? && node.children[0].TextNode? ==> r.value.parent == node
  {
    if |node.children| == 0 then Err("TypeError: Cannot read properties of undefined")
    else
      var first := node.children[0];
      if first.ElementNode? && first.tag == "a" then GetTextNodeFromSpan(first)
      else if !first.TextNode? then Err("unable to render")
      else Ok(SpanText(first.textContent, node))
  }

  /** The words of one span's text: `text.split(' ')`, each followed by a space but the
    * last. */
  function SpanWords(text: string, styles: Styles): (ws: seq<Word>)
    ensures |ws| == |Split(text, ' ')| > 0
    ensures forall i :: 0 <= i < |ws| ==>
      ws[i].word == Split(text, ' ')[i] && ws[i].styles == styles && (ws[i].hasSpaceAfter <==> i != |ws| - 1)
  {
    var parts := Split(text, ' ');
    seq(|parts|, i requires 0 <= i < |parts| => Word(parts[i], styles, i != |parts| - 1))
  }

  /** What the words draw: each word, and a space after it when `hasSpaceAfter`. */
  function Spelled(ws: seq<Word>): string {
    if ws == [] then ""
    else ws[0].word + (if ws[0].hasSpaceAfter then " " else "") + Spelled(ws[1..])
  }

  /** The words of a span spell its text again, spaces included. */
  lemma SpanWordsSpellText(text: string, styles: Styles)
    ensures Spelled(SpanWords(text, styles)) == text
  {
    var parts := Split(text, ' ');
    SpelledParts(parts, styles);
    JoinSplit(text, ' ');
  }

  lemma {:induction false} SpelledParts(parts: seq<string>, styles: Styles)
    requires |parts| > 0
    ensures Spelled(seq(|parts|, i requires 0 <= i < |parts| => Word(parts[i], styles, i != |parts| - 1)))
      == Join(parts, " ")
  {
    var ws := seq(|parts|, i requires 0 <= i < |parts| => Word(parts[i], styles, i != |parts| - 1));
    if |parts| > 1 {
      var rest := parts[1..];
      var wsRest := seq(|rest|, i requires 0 <= i < |rest| => Word(rest[i], styles, i != |rest| - 1));
      assert ws[1..] == wsRest;
      SpelledParts(rest, styles);
    }
  }

  /** The words one child of the row contributes in `flatMapOfText`. */
  function ChildWords(child: AstNode): (r: Result<seq<Word>>)
    ensures child.TextNode? ==> r == Ok([])
    ensures child.ElementNode? ==> (r.Ok? <==> EndsInText(child))
    ensures r.Ok? && child.ElementNode? && GetTextNodeFromSpan(child).value.textNode.None? ==> r.value == []
  {
    if child.TextNode? then Ok([])
    else
      match GetTextNodeFromSpan(child)
      case Err(msg) => Err(msg)
      case Ok(found) =>
        if found.textNode.None? then Ok([])
        else Ok(SpanWords(found.textNode.value, found.parent.styles))
  }

  /** `flatMapOfText(row)`: the words of the row's children in order; the text children
    * of the row itself add none, and neither does a span whose text is null. It throws
    * on the first child whose text node cannot be found. */
  function FlatMapOfText(children: seq<AstNode>): Result<seq<Word>> {
    if children == [] then Ok([])
    else
      match ChildWords(children[0])
      case Err(msg) => Err(msg)
      case Ok(first) =>
        match FlatMapOfText(children[1..])
        case Err(msg) => Err(msg)
        case Ok(words) => Ok(first + words)
  }

  /** `flatMapOfText` throws exactly when the text node of one of the children cannot be
    * found. */
  lemma {:induction false} FlatMapOfTextOk(children: seq<AstNode>)
    ensures FlatMapOfText(children).Ok? <==> forall k :: 0 <= k < |children| ==> ChildWords(children[k]).Ok?
  {
    if children != [] {
      assert forall k :: 1 <= k < |children| ==> children[k] == children[1..][k - 1];
      FlatMapOfTextOk(children[1..]);
    }
  }

  /** The element children of a row, in order. */
  function Elements(children: seq<AstNode>): (r: seq<AstNode>)
    ensures forall c :: c in r <==> c in children && c.ElementNode?
  {
    if children == [] then []
    else if children[0].ElementNode? then [children[0]] + Elements(children[1..])
    else Elements(children[1..])
  }

  /** The row's own text children contribute nothing: the words are those of its
    * element children alone. */
  lemma {:induction false} TextChildrenSkipped(children: seq<AstNode>)
    ensures FlatMapOfText(children) == FlatMapOfText(Elements(children))
  {
    if children != [] {
      TextChildrenSkipped(children[1..]);
      if children[0].ElementNode? {
        assert ([children[0]] + Elements(children[1..]))[1..] == Elements(children[1..]);
      } else {
        var rest := FlatMapOfText(children[1..]);
        if rest.Ok? {
          assert [] + rest.value == rest.value;
        }
      }
    }
  }

  /** The words of a non-empty run of children: those of its first child, then the rest's. */
  lemma FlatMapCons(s: seq<AstNode>)
    requires s != []
    ensures FlatMapOfText(s).Ok? <==> ChildWords(s[0]).Ok? && FlatMapOfText(s[1..]).Ok?
    ensures FlatMapOfText(s).Ok? ==> FlatMapOfText(s).value == ChildWords(s[0]).value + FlatMapOfText(s[1..]).value
  {
  }

  /** The words of two runs of children follow one another. */
  lemma {:induction false} FlatMapAppend(a: seq<AstNode>, b: seq<AstNode>)
    requires FlatMapOfText(a).Ok? && FlatMapOfText(b).Ok?
    ensures FlatMapOfText(a + b) == Ok(FlatMapOfText(a).value + FlatMapOfText(b).value)
  {
    if a != [] {
      var ab := a + b;
      assert ab[1..] == a[1..] + b && ab[0] == a[0];
      FlatMapCons(a);
      FlatMapAppend(a[1..], b);
      FlatMapCons(ab);
      var first := ChildWords(a[0]).value;
      var x := FlatMapOfText(a[1..]).value;
      var y := FlatMapOfText(b).value;
      assert first + (x + y) == (first + x) + y;
    } else {
      assert a + b == b;
      assert FlatMapOfText(b).value == [] + FlatMapOfText(b).value;
    }
  }

  /** `isAllSpanTextRow(row)`: a list item whose children are all spans of one child. */
  predicate IsAllSpanTextRow(row: AstNode) {
    && row.ElementNode? && row.tag == "li"
    && forall c :: c in row.children ==> c.ElementNode? && c.tag == "span" && |c.children| == 1
  }

  /** A row of spans each holding one text node renders without throwing, and its words
    * spell the spans' texts in order, a space between each two words of a span. */
  lemma {:induction false} SpanRowFlattens(children: seq<AstNode>)
    requires forall c :: c in children ==>
      c.ElementNode? && c.tag == "span" && |c.children| == 1 && c.children[0].TextNode?
    ensures FlatMapOfText(children).Ok?
    ensures Spelled(FlatMapOfText(children).value) == SpanTexts(children)
  {
    if children != [] {
      var c := children[0];
      assert c in children;
      assert forall x :: x in children[1..] ==> x in children;
      SpanRowFlattens(children[1..]);
      var rest := FlatMapOfText(children[1..]).value;
      var t := c.children[0].textContent;
      assert GetTextNodeFromSpan(c) == Ok(SpanText(t, c));
      if t.Some? {
        SpanWordsSpellText(t.value, c.styles);
        SpelledAppend(SpanWords(t.value, c.styles), rest);
      } else {
        assert [] + rest == rest;
      }
    }
  }

  /** A row `isAllSpanTextRow` accepts, whose spans each hold a text node, is laid out by
    * `renderTextRow` without throwing, and its words spell the spans' texts in order. */
  lemma AllSpanTextRowFlattens(row: AstNode)
    requires IsAllSpanTextRow(row)
    requires forall c :: c in row.children ==> c.children[0].TextNode?
    ensures FlatMapOfText(row.children).Ok?
    ensures Spelled(FlatMapOfText(row.children).value) == SpanTexts(row.children)
  {
    SpanRowFlattens(row.children);
  }

  /** The texts of the spans of a row, one after another (a null text spells nothing). */
  function SpanTexts(children: seq<AstNode>): string
    requires forall c :: c in children ==> c.ElementNode? && |c.children| > 0 && c.children[0].TextNode?
  {
    if children == [] then ""
    else
      var t := children[0].children[0].textContent;
      assert children[0] in children;
      (if t.Some? then t.value else "") + SpanTexts(children[1..])
  }

  lemma {:induction false} SpelledAppend(a: seq<Word>, b: seq<Word>)
    ensures Spelled(a + b) == Spelled(a) + Spelled(b)
  {
    if a != [] {
      assert (a + b)[1..] == a[1..] + b;
      SpelledAppend(a[1..], b);
    } else {
      assert a + b == b;
    }
  }
}
