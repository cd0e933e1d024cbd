// src/lib/notion/server.ts: turning the blocks of a Notion page into the elements the
// post page renders. Fetching the blocks is not modelled: `GetPageBlocks` takes them as
// its argument. A block carries its type name and one optional payload per handled
// type, as the Notion API sends it.

module NotionServer {
  import opened Common
  import opened Strings

  /** A rich-text run; only its `plain_text` is read. */
  datatype RichText = RichText(plainText: string)

  /** The payload of a text block: its rich-text runs. */
  datatype TextPayload = TextPayload(richText: seq<RichText>)

  /** The payload of a code block. */
  datatype CodePayload = CodePayload(richText: seq<RichText>, language: string)

  /** The payload of an image block: the URL of its file. */
  datatype ImagePayload = ImagePayload(url: string)

  datatype PostBlock = PostBlock(
    kind: string,
    numberedListItem: Option<TextPayload>,
    paragraph: Option<TextPayload>,
    image: Option<ImagePayload>,
    code: Option<CodePayload>,
    heading3: Option<TextPayload>,
    heading2: Option<TextPayload>)

  /** The parsed block; its `type` tag is `Tag`. A missing payload gives empty text, and
    * an image or code block without its payload an undefined URL or language. */
  datatype Parsed =
    | H2(content: string)
    | H3(content: string)
    | Paragraph(content: string)
    | Code(code: string, language: Option<string>)
    | Image(url: Option<string>)
    | NumberedListItem(content: string)

  /** The element the page renders: a run of list items, or any other block. */
  datatype Element = NumberedList(group: seq<Parsed>) | Block(parsed: Parsed)

  /** The `type` field of a parsed block. */
  function Tag(p: Parsed): string {
    match p
    case H2(_) => "h2"
    case H3(_) => "h3"
    case Paragraph(_) => "paragraph"
    case Code(_, _) => "code"
    case Image(_) => "image"
    case NumberedListItem(_) => "numbered_list_item"
  }

  /** The block types `parseBlock` handles. */
  predicate Handled(kind: string) {
    kind in {"code", "paragraph", "numbered_list_item", "image", "heading_3", "heading_2"}
  }

  /** `sortByOrder(a, b)` of this file: `(a.order ?? MAX_SAFE_INTEGER) - (b.order ??
    * MAX_SAFE_INTEGER)`, an ascending comparator on the `order` property. */
  const MaxSafeInteger: int := 9007199254740991

  function OrderKey(order: Option<int>): int {
    if order.Some? then order.value else MaxSafeInteger
  }

  function SortByOrder(a: Option<int>, b: Option<int>): (r: int)
    ensures r < 0 <==> OrderKey(a) < OrderKey(b)
    ensures r == 0 <==> OrderKey(a) == OrderKey(b)
  {
    OrderKey(a) - OrderKey(b)
  }

  /** The comparator is antisymmetric, so it is a consistent ascending order; an item
    * without an order sorts after every item whose order is below MAX_SAFE_INTEGER. */
  lemma SortByOrderAscending(a: Option<int>, b: Option<int>)
    ensures SortByOrder(a, b) == -SortByOrder(b, a)
    ensures a.None? && b.Some? && b.value < MaxSafeInteger ==> SortByOrder(a, b) > 0
  {
  }

  // ---------------------------------------------------------------------------------
  // Parsing

  /** `parseRichText(richText)`: '' when there is none, otherwise the plain texts joined
    * with single spaces. */
  function ParseRichText(richText: Option<seq<RichText>>): (s: string)
    ensures richText.None? ==> s == ""
    ensures richText.Some? ==> s == Join(PlainTexts(richText.value), " ")
  {
    if richText.None? then "" else Join(PlainTexts(richText.value), " ")
  }

  function PlainTexts(runs: seq<RichText>): (r: seq<string>)
    ensures |r| == |runs| && forall k :: 0 <= k < |runs| ==> r[k] == runs[k].plainText
  {
    seq(|runs|, k requires 0 <= k < |runs| => runs[k].plainText)
  }

  /** The runs' texts can be read back from the parsed text when none holds a space. */
  lemma RichTextSplitsBack(runs: seq<RichText>)
    requires |runs| >= 1 && forall k :: 0 <= k < |runs| ==> ' ' !in runs[k].plainText
    ensures Split(ParseRichText(Some(runs)), ' ') == PlainTexts(runs)
  {
    SplitJoin(PlainTexts(runs), ' ');
  }

  /** The rich text of an optional payload (`block.heading_2?.rich_text`). */
  function RichTextOf(payload: Option<TextPayload>): Option<seq<RichText>> {
    if payload.Some? then Some(payload.value.richText) else None
  }

  /** `parseBlock(block)`: throws "block type not implemented" on a type it does not
    * handle; otherwise parses the payload named by the type into the element tagged
    * with that type (`heading_2` becomes "h2", `heading_3` "h3"). */
  function ParseBlock(block: PostBlock): (r: Result<Parsed>)
    ensures r.Err? <==> !Handled(block.kind)
    ensures r.Ok? ==> Tag(r.value) == if block.kind == "heading_2" then "h2"
                                       else if block.kind == "heading_3" then "h3"
                                       else block.kind
    ensures r.Ok? && block.kind in {"paragraph", "numbered_list_item", "heading_3", "heading_2"} ==>
      r.value.content == ParseRichText(RichTextOf(
        match block.kind
        case "paragraph" => block.paragraph
        case "numbered_list_item" => block.numberedListItem
        case "heading_3" => block.heading3
        case _ => block.heading2))
  {
    match block.kind
    case "code" =>
      var code := block.code;
      Ok(Code(ParseRichText(if code.Some? then Some(code.value.richText) else None),
              if code.Some? then Some(code.value.language) else None))
    case "paragraph" => Ok(Paragraph(ParseRichText(RichTextOf(block.paragraph))))
    case "numbered_list_item" => Ok(NumberedListItem(ParseRichText(RichTextOf(block.numberedListItem))))
    case "image" => Ok(Image(if block.image.Some? then Some(block.image.value.url) else None))
    case "heading_3" => Ok(H3(ParseRichText(RichTextOf(block.heading3))))
    case "heading_2" => Ok(H2(ParseRichText(RichTextOf(block.heading2))))
    case _ => Err("block type not implemented")
  }

  /** `blocks.map(parseBlock)`: the parsed blocks in order, or the error of the first
    * block that does not parse. */
  function ParseAll(blocks: seq<PostBlock>): (r: Result<seq<Parsed>>)
    ensures r.Ok? <==> forall k :: 0 <= k < |blocks| ==> Handled(blocks[k].kind)
    ensures r.Ok? ==> |r.value| == |blocks| && forall k :: 0 <= k < |blocks| ==> ParseBlock(blocks[k]) == Ok(r.value[k])
  {
    if blocks == [] then Ok([])
    else
      match ParseBlock(blocks[0])
      case Err(msg) => Err(msg)
      case Ok(first) =>
        match ParseAll(blocks[1..])
        case Err(msg) => Err(msg)
        case Ok(rest) =>
          assert forall k :: 1 <= k < |blocks| ==> blocks[k] == blocks[1..][k - 1];
          Ok([first] + rest)
  }

  // ---------------------------------------------------------------------------------
  // Grouping numbered list items

  /** The loop state of `getPageBlocks`: the elements so far and the open run of items. */
  datatype Grouping = Grouping(groupLists: seq<Element>, currentGroup: seq<Parsed>)

  /** One round of the loop: an item joins the open run; any other block closes the run
    * (when it is not empty) and follows it. */
  function GroupStep(g: Grouping, curr: Parsed): Grouping {
    if curr.NumberedListItem? then Grouping(g.groupLists, g.currentGroup + [curr])
    else Grouping(g.groupLists + Close(g.currentGroup) + [Block(curr)], [])
  }

  /** The group a run of items becomes: none for an empty run. */
  function Close(currentGroup: seq<Parsed>): seq<Element> {
    if |currentGroup| > 0 then [NumberedList(currentGroup)] else []
  }

  /** The loop state after the first |parsed| blocks. */
  function GroupLoop(parsed: seq<Parsed>): Grouping {
    if parsed == [] then Grouping([], [])
    else GroupStep(GroupLoop(parsed[..|parsed| - 1]), parsed[|parsed| - 1])
  }

  /** What the loop of `getPageBlocks` returns, as written: `groupLists`, with no flush of
    * the run still open when the loop ends. */
  function GroupAsWritten(parsed: seq<Parsed>): seq<Element> {
    GroupLoop(parsed).groupLists
  }

  /** The grouping evidently intended: the open run is closed after the loop as well. */
  function Grouped(parsed: seq<Parsed>): seq<Element> {
    var g := GroupLoop(parsed);
    g.groupLists + Close(g.currentGroup)
  }

  /** The blocks of the elements, in order. */
  function Flatten(es: seq<Element>): seq<Parsed> {
    if es == [] then []
    else
      Flatten(es[..|es| - 1]) + (match es[|es| - 1] case NumberedList(group) => group case Block(p) => [p])
  }

  lemma {:induction false} FlattenAppend(a: seq<Element>, b: seq<Element>)
    ensures Flatten(a + b) == Flatten(a) + Flatten(b)
    decreases |b|
  {
    if b != [] {
      assert (a + b)[..|a + b| - 1] == a + b[..|b| - 1];
      assert (a + b)[|a + b| - 1] == b[|b| - 1];
      FlattenAppend(a, b[..|b| - 1]);
    } else {
      assert a + b == a;
    }
  }

  /** Closing a run gives back its blocks. */
  lemma FlattenClose(currentGroup: seq<Parsed>)
    ensures Flatten(Close(currentGroup)) == currentGroup
  {
    if |currentGroup| > 0 {
      assert Flatten([NumberedList(currentGroup)]) == Flatten([]) + currentGroup;
    }
  }

  /** Groups are non-empty runs of items, single blocks are never items, and no two groups
    * are next to each other, so every group is a maximal run. */
  predicate WellGrouped(es: seq<Element>) {
    && (forall k :: 0 <= k < |es| && es[k].NumberedList? ==>
          |es[k].group| > 0 && forall x :: x in es[k].group ==> x.NumberedListItem?)
    && (forall k :: 0 <= k < |es| && es[k].Block? ==> !es[k].parsed.NumberedListItem?)
    && (forall k :: 0 <= k < |es| - 1 && es[k].NumberedList? ==> es[k + 1].Block?)
  }

  /** Closing a run of items after elements that end in a block keeps them well grouped. */
  lemma WellGroupedClose(es: seq<Element>, currentGroup: seq<Parsed>)
    requires WellGrouped(es) && (|es| > 0 ==> es[|es| - 1].Block?)
    requires forall x :: x in currentGroup ==> x.NumberedListItem?
    ensures WellGrouped(es + Close(currentGroup))
  {
    var r := es + Close(currentGroup);
    forall k | 0 <= k < |r| - 1 && r[k].NumberedList?
      ensures r[k + 1].Block?
    {
      assert k < |es| - 1 && r[k] == es[k] && r[k + 1] == es[k + 1];
    }
  }

  /** Appending a block that is not an item keeps the elements well grouped. */
  lemma WellGroupedBlock(es: seq<Element>, curr: Parsed)
    requires WellGrouped(es) && !curr.NumberedListItem?
    ensures WellGrouped(es + [Block(curr)])
  {
    var r := es + [Block(curr)];
    forall k | 0 <= k < |r| - 1 && r[k].NumberedList?
      ensures r[k + 1].Block?
    {
      if k < |es| - 1 {
        assert r[k] == es[k] && r[k + 1] == es[k + 1];
      }
    }
  }

  /** One more round of the loop is one more `GroupStep`. */
  lemma GroupLoopNext(parsed: seq<Parsed>, i: nat)
    requires i < |parsed|
    ensures GroupLoop(parsed[..i + 1]) == GroupStep(GroupLoop(parsed[..i]), parsed[i])
  {
    assert parsed[..i + 1][..i] == parsed[..i];
  }

  /** The loop keeps every block: the elements so far followed by the open run are the
    * blocks read, and the open run holds only items. */
  lemma {:induction false} GroupLoopKeepsBlocks(parsed: seq<Parsed>)
    ensures var g := GroupLoop(parsed);
      Flatten(g.groupLists) + g.currentGroup == parsed && forall x :: x in g.currentGroup ==> x.NumberedListItem?
  {
    if parsed != [] {
      var front := parsed[..|parsed| - 1];
      var curr := parsed[|parsed| - 1];
      GroupLoopKeepsBlocks(front);
      var g := GroupLoop(front);
      assert parsed == front + [curr];
      assert GroupLoop(parsed) == GroupStep(g, curr);
      if curr.NumberedListItem? {
        ItemJoinsRun(Flatten(g.groupLists), g.currentGroup, curr);
      } else {
        BlockClosesRun(g.groupLists, g.currentGroup, curr);
      }
    }
  }

  lemma ItemJoinsRun(done: seq<Parsed>, run: seq<Parsed>, curr: Parsed)
    requires forall x :: x in run ==> x.NumberedListItem?
    requires curr.NumberedListItem?
    ensures done + (run + [curr]) == (done + run) + [curr]
    ensures forall x :: x in run + [curr] ==> x.NumberedListItem?
  {
  }

  lemma BlockClosesRun(groupLists: seq<Element>, run: seq<Parsed>, curr: Parsed)
    ensures Flatten(groupLists + Close(run) + [Block(curr)]) == Flatten(groupLists) + run + [curr]
  {
    var closed := groupLists + Close(run);
    FlattenAppend(closed, [Block(curr)]);
    FlattenAppend(groupLists, Close(run));
    FlattenClose(run);
    assert Flatten([Block(curr)]) == [curr] by {
      assert [Block(curr)][..0] == [];
    }
  }

  /** The elements the loop has emitted are well grouped and do not end in a group. */
  lemma {:induction false} GroupLoopWellGrouped(parsed: seq<Parsed>)
    ensures var es := GroupLoop(parsed).groupLists;
      WellGrouped(es) && (|es| > 0 ==> es[|es| - 1].Block?)
  {
    if parsed != [] {
      var front := parsed[..|parsed| - 1];
      var curr := parsed[|parsed| - 1];
      GroupLoopWellGrouped(front);
      GroupLoopKeepsBlocks(front);
      var g := GroupLoop(front);
      if !curr.NumberedListItem? {
        WellGroupedClose(g.groupLists, g.currentGroup);
        WellGroupedBlock(g.groupLists + Close(g.currentGroup), curr);
      }
    }
  }

  /** The intended grouping keeps every block, in order, and groups maximal runs. */
  lemma GroupedKeepsEveryBlock(parsed: seq<Parsed>)
    ensures Flatten(Grouped(parsed)) == parsed
    ensures WellGrouped(Grouped(parsed))
  {
    GroupLoopKeepsBlocks(parsed);
    GroupLoopWellGrouped(parsed);
    var g := GroupLoop(parsed);
    FlattenAppend(g.groupLists, Close(g.currentGroup));
    FlattenClose(g.currentGroup);
    WellGroupedClose(g.groupLists, g.currentGroup);
  }

  /** As written, the run of items at the end of the page is lost: the elements hold the
    * blocks up to the last block that is not an item, and nothing after it. */
  lemma TrailingItemsDropped(parsed: seq<Parsed>)
    ensures var t := GroupLoop(parsed).currentGroup;
      && |t| <= |parsed|
      && Flatten(GroupAsWritten(parsed)) == parsed[..|parsed| - |t|]
      && (forall x :: x in parsed[|parsed| - |t|..] ==> x.NumberedListItem?)
      && (|t| < |parsed| ==> !parsed[|parsed| - |t| - 1].NumberedListItem?)
  {
    GroupLoopKeepsBlocks(parsed);
    GroupLoopWellGrouped(parsed);
    var g := GroupLoop(parsed);
    var es := g.groupLists;
    var n := |parsed| - |g.currentGroup|;
    assert parsed[..n] == Flatten(es) && parsed[n..] == g.currentGroup;
    if n > 0 {
      var last := es[|es| - 1];
      assert es == es[..|es| - 1] + [last];
      assert Flatten(es) == Flatten(es[..|es| - 1]) + [last.parsed];
      assert parsed[n - 1] == Flatten(es)[n - 1] == last.parsed;
    }
  }

  /** A page that ends in a numbered list, as written, loses it. */
  lemma EndingListIsLost()
    ensures GroupAsWritten([Paragraph("steps:"), NumberedListItem("one")]) == [Block(Paragraph("steps:"))]
    ensures Grouped([Paragraph("steps:"), NumberedListItem("one")])
      == [Block(Paragraph("steps:")), NumberedList([NumberedListItem("one")])]
  {
    var parsed := [Paragraph("steps:"), NumberedListItem("one")];
    assert parsed[..1] == [Paragraph("steps:")];
    assert parsed[..1][..0] == [];
    assert GroupLoop(parsed[..1]) == Grouping([Block(Paragraph("steps:"))], []);
    assert GroupLoop(parsed) == Grouping([Block(Paragraph("steps:"))], [NumberedListItem("one")]);
  }

  /** The loop of `getPageBlocks` over the parsed blocks: items are collected into the
    * open run, and any other block closes the open run and is pushed after it. */
  method GroupBlocks(parsed: seq<Parsed>) returns (groupLists: seq<Element>, currentGroup: seq<Parsed>)
    ensures Grouping(groupLists, currentGroup) == GroupLoop(parsed)
  {
    groupLists := [];
    currentGroup := [];
    for i := 0 to |parsed|
      invariant Grouping(groupLists, currentGroup) == GroupLoop(parsed[..i])
    {
      var curr := parsed[i];
      GroupLoopNext(parsed, i);
      if curr.NumberedListItem? {
        currentGroup := currentGroup + [curr];
      } else {
        if |currentGroup| > 0 {
          groupLists := groupLists + [NumberedList(currentGroup)];
          currentGroup := [];
        }
        groupLists := groupLists + [Block(curr)];
      }
    }
    assert parsed[..|parsed|] == parsed;
  }

  /** `getPageBlocks(pageId)` over the fetched `blocks`, as written: parses every block
    * (throwing on an unhandled type), then groups consecutive numbered list items into
    * numbered lists, and returns the groups without the run still open at the end: the
    * elements hold the blocks up to the last block that is not an item. */
  method GetPageBlocks(blocks: seq<PostBlock>) returns (r: Result<seq<Element>>)
    ensures r.Err? <==> exists k :: 0 <= k < |blocks| && !Handled(blocks[k].kind)
    ensures r.Ok? ==> r.value == GroupAsWritten(ParseAll(blocks).value)
    ensures r.Ok? ==> var parsed := ParseAll(blocks).value;
      var t := GroupLoop(parsed).currentGroup;
      |t| <= |parsed| && Flatten(r.value) == parsed[..|parsed| - |t|]
  {
    var all := ParseAll(blocks);
    if all.Err? {
      return Err(all.msg);
    }
    var groupLists, currentGroup := GroupBlocks(all.value);
    TrailingItemsDropped(all.value);
    return Ok(groupLists);
  }

  /** `getPageBlocks` with the run still open at the end closed as well: the groups hold
    * every parsed block, in order, and every run of items is one numbered list. */
  method GetPageBlocksIntended(blocks: seq<PostBlock>) returns (r: Result<seq<Element>>)
    ensures r.Err? <==> exists k :: 0 <= k < |blocks| && !Handled(blocks[k].kind)
    ensures r.Ok? ==> r.value == Grouped(ParseAll(blocks).value)
    ensures r.Ok? ==> Flatten(r.value) == ParseAll(blocks).value && WellGrouped(r.value)
  {
    var all := ParseAll(blocks);
    if all.Err? {
      return Err(all.msg);
    }
    var groupLists, currentGroup := GroupBlocks(all.value);
    if |currentGroup| > 0 {
      groupLists := groupLists + [NumberedList(currentGroup)];
    }
    GroupedKeepsEveryBlock(all.value);
    return Ok(groupLists);
  }
}
