/** The tree builder: each block becomes a tagged parent node (or, for code, a `pre`
    around a `code` leaf), and the whole document a `div` holding one such node per
    block. Inline text becomes the runs of the inline parser, each an `InlineRun` child. */
module TreeBuilder {
  import opened Wrappers
  import opened PyStr
  import opened TextNodes
  import opened HtmlNodes
  import opened Inline
  import opened BlockParsing

  /** `nodes` followed by the nodes of `r`, or the error of `r`. */
  function PrependTrees(nodes: seq<HtmlTree>, r: Result<seq<HtmlTree>>): Result<seq<HtmlTree>> {
    match r
    case Success(rest) => Success(nodes + rest)
    case Failure(e) => Failure(e)
  }

  lemma {:induction false} PrependTreesAppend(acc: seq<HtmlTree>, more: seq<HtmlTree>, r: Result<seq<HtmlTree>>)
    ensures PrependTrees(acc, PrependTrees(more, r)) == PrependTrees(acc + more, r)
    ensures PrependTrees([], r) == r
  {
    if r.Success? {
      assert acc + (more + r.value) == (acc + more) + r.value;
      assert [] + r.value == r.value;
    }
  }

  // ---------------------------------------------------------------------------
  // text_to_children
  // ---------------------------------------------------------------------------

  /** One inline child per run, in order. */
  function AsChildren(runs: seq<TextNode>): (children: seq<HtmlTree>)
    ensures |children| == |runs|
    ensures forall i :: 0 <= i < |runs| ==> children[i] == InlineRun(runs[i])
  {
    seq(|runs|, i requires 0 <= i < |runs| => InlineRun(runs[i]))
  }

  /** What `text_to_children` returns: the inline runs of the text as children, or the
      inline parser's error. */
  function Children(text: string): Result<seq<HtmlTree>> {
    var runs :- InlineRuns(text);
    Success(AsChildren(runs))
  }

  /** `text_to_children`. */
  method TextToChildren(text: string) returns (r: Result<seq<HtmlTree>>)
    ensures r == Children(text)
  {
    var textNodes :- TextToTextNodes(text);
    var children := RunsToChildren(textNodes);
    return Success(children);
  }

  /** The loop of `text_to_children`: one child per run, appended in order. */
  method RunsToChildren(runs: seq<TextNode>) returns (children: seq<HtmlTree>)
    ensures children == AsChildren(runs)
  {
    children := [];
    for i := 0 to |runs|
      invariant |children| == i
      invariant forall k :: 0 <= k < i ==> children[k] == InlineRun(runs[k])
    {
      children := children + [InlineRun(runs[i])];
    }
  }

  // ---------------------------------------------------------------------------
  // convert_list_items
  // ---------------------------------------------------------------------------

  /** The text of one list item: after the first `. ` for an ordered list (the whole
      line when there is none), after the two-character marker for an unordered one. */
  function ItemContent(line: string, isOrdered: bool): string {
    if isOrdered then
      var parts := SplitOnce(line, ". ");
      if |parts| > 1 then parts[1] else line
    else SliceFrom(line, 2)
  }

  /** One list item: an `li` holding the children of the item's text. */
  function ItemNode(line: string, isOrdered: bool): Result<HtmlTree> {
    var itemChildren :- Children(ItemContent(line, isOrdered));
    Success(Parent("li", itemChildren))
  }

  /** The nodes of `rs` in order, or the first error among them. */
  function Collect(rs: seq<Result<HtmlTree>>): Result<seq<HtmlTree>>
    decreases |rs|
  {
    if |rs| == 0 then Success([])
    else
      var node :- rs[0];
      var rest :- Collect(rs[1..]);
      Success([node] + rest)
  }

  lemma {:induction false} CollectUnfold(rs: seq<Result<HtmlTree>>, i: nat)
    requires i < |rs|
    ensures Collect(rs[i..]) == if rs[i].Failure? then Failure(rs[i].error)
                                else PrependTrees([rs[i].value], Collect(rs[i + 1..]))
  {
    assert rs[i..][0] == rs[i] && rs[i..][1..] == rs[i + 1..];
  }

  /** Collecting fails exactly when some result is an error. */
  lemma {:induction false} CollectFailure(rs: seq<Result<HtmlTree>>)
    ensures Collect(rs).Failure? <==> exists i :: 0 <= i < |rs| && rs[i].Failure?
    decreases |rs|
  {
    if |rs| > 0 {
      CollectFailure(rs[1..]);
      if Collect(rs).Failure? && rs[0].Success? {
        var i :| 0 <= i < |rs[1..]| && rs[1..][i].Failure?;
        assert rs[i + 1] == rs[1..][i];
      }
      if rs[0].Success? && exists i :: 0 <= i < |rs| && rs[i].Failure? {
        var i :| 0 <= i < |rs| && rs[i].Failure?;
        assert rs[1..][i - 1] == rs[i];
      }
    }
  }

  /** When collecting succeeds it keeps every node, in order. */
  lemma {:induction false} CollectAt(rs: seq<Result<HtmlTree>>, i: nat)
    requires Collect(rs).Success? && i < |rs|
    ensures |Collect(rs).value| == |rs|
    ensures rs[i].Success? && Collect(rs).value[i] == rs[i].value
    decreases |rs|
  {
    var rest := Collect(rs[1..]);
    if |rs| > 1 {
      CollectAt(rs[1..], if i > 0 then i - 1 else 0);
    }
    if i > 0 {
      assert rs[1..][i - 1] == rs[i];
      assert Collect(rs).value[i] == rest.value[i - 1];
    }
  }

  /** The item of each line, in order. */
  function ItemNodes(lines: seq<string>, isOrdered: bool): (rs: seq<Result<HtmlTree>>)
    ensures |rs| == |lines|
    ensures forall i :: 0 <= i < |lines| ==> rs[i] == ItemNode(lines[i], isOrdered)
  {
    seq(|lines|, i requires 0 <= i < |lines| => ItemNode(lines[i], isOrdered))
  }

  /** What `convert_list_items` returns for the lines of a block: one `li` per line, in
      order, or the error of the first line whose text does not convert. */
  function ListItems(lines: seq<string>, isOrdered: bool): Result<seq<HtmlTree>> {
    Collect(ItemNodes(lines, isOrdered))
  }

  /** `convert_list_items`. */
  method ConvertListItems(block: string, isOrdered: bool) returns (r: Result<seq<HtmlTree>>)
    ensures r == ListItems(Lines(block), isOrdered)
  {
    var lines := Split(block, "\n");
    r := LinesToItems(lines, isOrdered);
  }

  /** The loop of `convert_list_items`: one `li` per line, appended in order, stopping at
      the first item whose text fails to convert. */
  method LinesToItems(lines: seq<string>, isOrdered: bool) returns (r: Result<seq<HtmlTree>>)
    ensures r == ListItems(lines, isOrdered)
  {
    ghost var items := ItemNodes(lines, isOrdered);
    var listItems: seq<HtmlTree> := [];
    assert items[0..] == items;
    PrependTreesAppend([], [], Collect(items));
    for i := 0 to |lines|
      invariant ListItems(lines, isOrdered) == PrependTrees(listItems, Collect(items[i..]))
    {
      var content := ItemText(lines[i], isOrdered);
      CollectUnfold(items, i);
      var itemChildren :- TextToChildren(content);
      PrependTreesAppend(listItems, [Parent("li", itemChildren)], Collect(items[i + 1..]));
      listItems := listItems + [Parent("li", itemChildren)];
    }
    assert items[|lines|..] == [] && listItems + [] == listItems;
    return Success(listItems);
  }

  /** The item text of one line: after the first `. ` (the whole line when there is none)
      for an ordered list, after the two-character marker for an unordered one. */
  method ItemText(line: string, isOrdered: bool) returns (content: string)
    ensures content == ItemContent(line, isOrdered)
  {
    content := "";
    if isOrdered {
      var parts := SplitOnce(line, ". ");
      if |parts| > 1 {
        content := parts[1];
      } else {
        content := line;
      }
    } else {
      content := SliceFrom(line, 2);
    }
  }

  // ---------------------------------------------------------------------------
  // block_to_html_node
  // ---------------------------------------------------------------------------

  /** The tag of a heading with `level` leading `#`: `f"h{level}"`. */
  function HeadingTag(level: nat): string {
    "h" + NatToString(level)
  }

  /** The Python slice `block[3:-3]`: empty unless the block is at least six long. */
  function CodeBody(block: string): string {
    if |block| >= 6 then block[3..|block| - 3] else ""
  }

  /** Each quote line without its first character, stripped. */
  function CleanQuoteLines(lines: seq<string>): (cleaned: seq<string>)
    ensures |cleaned| == |lines|
    ensures forall i :: 0 <= i < |lines| ==> cleaned[i] == Strip(SliceFrom(lines[i], 1))
  {
    seq(|lines|, i requires 0 <= i < |lines| => Strip(SliceFrom(lines[i], 1)))
  }

  /** What `block_to_html_node` returns, by the block's type. */
  function BlockNode(block: string): Result<HtmlTree> {
    match BlockTypeOf(block)
    case ParagraphBlock =>
      var children :- Children(ReplaceChar(block, '\n', ' '));
      Success(Parent("p", children))
    case HeadingBlock =>
      var level := LeadingHashes(block);
      var children :- Children(Strip(block[level..]));
      Success(Parent(HeadingTag(level), children))
    case CodeBlock =>
      Success(Parent("pre", [Leaf(Some("code"), LStripNewlines(CodeBody(block)))]))
    case QuoteBlock =>
      var children :- Children(JoinWith(CleanQuoteLines(Lines(block)), "\n"));
      Success(Parent("blockquote", children))
    case UnorderedListBlock =>
      var items :- ListItems(Lines(block), false);
      Success(Parent("ul", items))
    case OrderedListBlock =>
      var items :- ListItems(Lines(block), true);
      Success(Parent("ol", items))
  }

  /** The heading level loop: counts `#` characters until the first other one. */
  method HeadingLevel(block: string) returns (level: nat)
    ensures level == LeadingHashes(block)
  {
    level := 0;
    for k := 0 to |block|
      invariant level == k && forall j :: 0 <= j < k ==> block[j] == '#'
    {
      if block[k] == '#' {
        level := level + 1;
      } else {
        break;
      }
    }
    LeadingHashesExact(block, level);
  }

  /** `block_to_html_node`. */
  method BlockToHtmlNode(block: string) returns (r: Result<HtmlTree>)
    ensures r == BlockNode(block)
  {
    var blockType := BlockToBlockType(block);
    if blockType == ParagraphBlock {
      var children :- TextToChildren(ReplaceChar(block, '\n', ' '));
      return Success(Parent("p", children));
    } else if blockType == HeadingBlock {
      var level := HeadingLevel(block);
      var headingText := Strip(block[level..]);
      var children :- TextToChildren(headingText);
      return Success(Parent("h" + NatToString(level), children));
    } else if blockType == CodeBlock {
      var codeContent := LStripNewlines(CodeBody(block));
      var codeNode := Leaf(Some("code"), codeContent);
      return Success(Parent("pre", [codeNode]));
    } else if blockType == QuoteBlock {
      var lines := Split(block, "\n");
      var cleanedLines := CleanQuoteLines(lines);
      var quoteText := JoinWith(cleanedLines, "\n");
      var children :- TextToChildren(quoteText);
      return Success(Parent("blockquote", children));
    } else if blockType == UnorderedListBlock {
      var listItemsNodes :- ConvertListItems(block, false);
      return Success(Parent("ul", listItemsNodes));
    } else {
      var listItemsNodes :- ConvertListItems(block, true);
      return Success(Parent("ol", listItemsNodes));
    }
  }

  // ---------------------------------------------------------------------------
  // markdown_to_html_node
  // ---------------------------------------------------------------------------

  /** The nodes of the non-empty blocks, in order, or the first block's error. */
  function BlockNodes(blocks: seq<string>): Result<seq<HtmlTree>>
    decreases |blocks|
  {
    if |blocks| == 0 then Success([])
    else if blocks[0] == "" then BlockNodes(blocks[1..])
    else
      var node :- BlockNode(blocks[0]);
      var rest :- BlockNodes(blocks[1..]);
      Success([node] + rest)
  }

  /** What `markdown_to_html_node` returns: a `div` holding the node of every block. */
  function DocumentNode(markdown: string): Result<HtmlTree> {
    var children :- BlockNodes(Blocks(markdown));
    Success(Parent("div", children))
  }

  lemma {:induction false} BlockNodesUnfold(blocks: seq<string>, i: nat)
    requires i < |blocks|
    ensures var node := BlockNode(blocks[i]);
            BlockNodes(blocks[i..])
            == if blocks[i] == "" then BlockNodes(blocks[i + 1..])
               else if node.Failure? then Failure(node.error)
               else PrependTrees([node.value], BlockNodes(blocks[i + 1..]))
  {
    assert blocks[i..][0] == blocks[i] && blocks[i..][1..] == blocks[i + 1..];
  }

  /** `markdown_to_html_node`. */
  method MarkdownToHtmlNode(markdown: string) returns (r: Result<HtmlTree>)
    ensures r == DocumentNode(markdown)
  {
    var blocks := MarkdownToBlocks(markdown);
    var blockHtmlNodes: seq<HtmlTree> := [];
    assert blocks[0..] == blocks;
    PrependTreesAppend([], [], BlockNodes(blocks));
    for i := 0 to |blocks|
      invariant BlockNodes(blocks) == PrependTrees(blockHtmlNodes, BlockNodes(blocks[i..]))
    {
      BlockNodesUnfold(blocks, i);
      if blocks[i] != "" {
        var htmlNode :- BlockToHtmlNode(blocks[i]);
        PrependTreesAppend(blockHtmlNodes, [htmlNode], BlockNodes(blocks[i + 1..]));
        blockHtmlNodes := blockHtmlNodes + [htmlNode];
      }
    }
    assert blocks[|blocks|..] == [] && blockHtmlNodes + [] == blockHtmlNodes;
    return Success(Parent("div", blockHtmlNodes));
  }

  // ---------------------------------------------------------------------------
  // extract_title
  // ---------------------------------------------------------------------------

  const NoTitleMessage := "No H1 header found in markdown."

  predicate IsTitleLine(line: string) {
    StartsWith(line, "# ")
  }

  /** The first line starting with `# `, without the marker and stripped. */
  function TitleIn(lines: seq<string>): Result<string>
    decreases |lines|
  {
    if |lines| == 0 then Failure(NoTitleMessage)
    else if IsTitleLine(lines[0]) then Success(Strip(lines[0][2..]))
    else TitleIn(lines[1..])
  }

  /** What `extract_title` returns. */
  function Title(markdown: string): Result<string> {
    TitleIn(Lines(markdown))
  }

  /** `extract_title`. */
  method ExtractTitle(markdown: string) returns (r: Result<string>)
    ensures r == Title(markdown)
  {
    var lines := Split(markdown, "\n");
    assert lines[0..] == lines;
    for i := 0 to |lines|
      invariant TitleIn(lines) == TitleIn(lines[i..])
    {
      assert lines[i..][0] == lines[i] && lines[i..][1..] == lines[i + 1..];
      if StartsWith(lines[i], "# ") {
        return Success(Strip(lines[i][2..]));
      }
    }
    return Failure(NoTitleMessage);
  }

  // ---------------------------------------------------------------------------
  // Properties
  // ---------------------------------------------------------------------------

  /** The title is found exactly when some line starts with `# `; otherwise the error
      names the missing header. */
  lemma {:induction false} TitleFound(lines: seq<string>)
    ensures TitleIn(lines).Success? <==> exists i :: 0 <= i < |lines| && IsTitleLine(lines[i])
    ensures TitleIn(lines).Failure? ==> TitleIn(lines).error == NoTitleMessage
    decreases |lines|
  {
    if |lines| > 0 {
      TitleFound(lines[1..]);
      if TitleIn(lines).Success? && !IsTitleLine(lines[0]) {
        var i :| 0 <= i < |lines[1..]| && IsTitleLine(lines[1..][i]);
        assert lines[1..][i] == lines[i + 1];
      }
      if !IsTitleLine(lines[0]) && exists i :: 0 <= i < |lines| && IsTitleLine(lines[i]) {
        var i :| 0 <= i < |lines| && IsTitleLine(lines[i]);
        assert lines[1..][i - 1] == lines[i];
      }
    }
  }

  /** The title comes from the first line that starts with `# `: that line without the
      marker, stripped. */
  lemma {:induction false} TitleIsFirst(lines: seq<string>, i: nat)
    requires i < |lines| && IsTitleLine(lines[i])
    requires forall j :: 0 <= j < i ==> !IsTitleLine(lines[j])
    ensures TitleIn(lines) == Success(Strip(lines[i][2..]))
    decreases i
  {
    if i > 0 {
      assert !IsTitleLine(lines[0]);
      forall j | 0 <= j < i - 1 ensures !IsTitleLine(lines[1..][j]) {
        assert lines[1..][j] == lines[j + 1];
      }
      assert lines[1..][i - 1] == lines[i];
      TitleIsFirst(lines[1..], i - 1);
    }
  }

  /** The node of each block, in order. */
  function BlockResults(blocks: seq<string>): (rs: seq<Result<HtmlTree>>)
    ensures |rs| == |blocks|
    ensures forall i :: 0 <= i < |blocks| ==> rs[i] == BlockNode(blocks[i])
  {
    seq(|blocks|, i requires 0 <= i < |blocks| => BlockNode(blocks[i]))
  }

  /** When no block is empty, nothing is skipped: the nodes are those of every block. */
  lemma {:induction false} BlockNodesCollect(blocks: seq<string>)
    requires forall i :: 0 <= i < |blocks| ==> blocks[i] != ""
    ensures BlockNodes(blocks) == Collect(BlockResults(blocks))
    decreases |blocks|
  {
    if |blocks| > 0 {
      var rs := BlockResults(blocks);
      BlockNodesCollect(blocks[1..]);
      assert BlockResults(blocks[1..]) == rs[1..];
      BlockNodesUnfold(blocks, 0);
      CollectUnfold(rs, 0);
      assert blocks[0..] == blocks && rs[0..] == rs && rs[0] == BlockNode(blocks[0]);
    }
  }

  /** The nodes of blocks that are all non-empty: one node per block, in order, or the
      error of the first block that fails. */
  lemma {:induction false} BlockNodesSpec(blocks: seq<string>)
    requires forall i :: 0 <= i < |blocks| ==> blocks[i] != ""
    ensures BlockNodes(blocks).Failure? <==> exists i :: 0 <= i < |blocks| && BlockNode(blocks[i]).Failure?
    ensures BlockNodes(blocks).Success? ==>
              var nodes := BlockNodes(blocks).value;
              |nodes| == |blocks| && forall i :: 0 <= i < |blocks| ==> nodes[i] == BlockNode(blocks[i]).value
  {
    var rs := BlockResults(blocks);
    BlockNodesCollect(blocks);
    CollectFailure(rs);
    if exists i :: 0 <= i < |blocks| && BlockNode(blocks[i]).Failure? {
      var i :| 0 <= i < |blocks| && BlockNode(blocks[i]).Failure?;
      assert rs[i].Failure?;
    }
    if Collect(rs).Success? {
      if |blocks| > 0 {
        CollectAt(rs, 0);
      }
      forall i | 0 <= i < |blocks| ensures Collect(rs).value[i] == BlockNode(blocks[i]).value {
        CollectAt(rs, i);
      }
    }
  }

  /** The document is a `div` with one child per block, in order, each the block's own
      node; it fails exactly when some block fails. */
  lemma {:induction false} DocumentChildren(markdown: string)
    ensures DocumentNode(markdown).Failure?
            <==> exists i :: 0 <= i < |Blocks(markdown)| && BlockNode(Blocks(markdown)[i]).Failure?
    ensures DocumentNode(markdown).Success? ==>
              var doc := DocumentNode(markdown).value;
              && doc.Parent? && doc.tag == "div"
              && |doc.children| == |Blocks(markdown)|
              && forall i :: 0 <= i < |Blocks(markdown)| ==> doc.children[i] == BlockNode(Blocks(markdown)[i]).value
  {
    BlocksAreBlocks(markdown);
    BlockNodesSpec(Blocks(markdown));
  }

  /** A document of whitespace alone, the empty one included, is an empty `div`. */
  lemma {:induction false} BlankDocument(markdown: string)
    requires forall k :: 0 <= k < |markdown| ==> IsSpace(markdown[k])
    ensures DocumentNode(markdown) == Success(Parent("div", []))
  {
    BlocksOfBlank(markdown);
  }

  /** A heading's tag is `h1` to `h6`, from its count of leading `#`, and its children
      are those of the text after the marks, stripped. */
  lemma {:induction false} HeadingNode(block: string)
    requires BlockTypeOf(block) == HeadingBlock
    ensures var n := LeadingHashes(block);
            && 1 <= n <= 6
            && HeadingTag(n) == ['h', ('0' as int + n) as char]
            && BlockNode(block) == (match Children(Strip(block[n..]))
                                    case Success(cs) => Success(Parent(HeadingTag(n), cs))
                                    case Failure(e) => Failure(e))
  {
    var n := LeadingHashes(block);
    assert IsHeading(block);
    SingleDigitTag(n);
  }

  /** A level below ten is written with one digit. */
  lemma {:induction false} SingleDigitTag(level: nat)
    requires level < 10
    ensures HeadingTag(level) == ['h', ('0' as int + level) as char]
  {
    assert NatToString(level) == [DigitChar(level)];
  }

  /** A code block never fails and is never parsed for inline markup: it is a `pre`
      around one `code` leaf holding the text between the fences, with leading line
      breaks dropped. */
  lemma {:induction false} CodeNode(block: string)
    requires BlockTypeOf(block) == CodeBlock
    ensures BlockNode(block) == Success(Parent("pre", [Leaf(Some("code"), LStripNewlines(CodeBody(block)))]))
  {
  }

  /** The code text is the end of what lies between the two fences, from which only
      leading line breaks were dropped; a block shorter than two fences has none. */
  lemma {:induction false} CodeContent(block: string)
    ensures var content := LStripNewlines(CodeBody(block));
            && (content == "" || content[0] != '\n')
            && (|block| < 6 ==> content == "")
            && (|block| >= 6 ==> |content| <= |block| - 6
                                 && content == block[|block| - 3 - |content|..|block| - 3])
            && (|block| >= 6 ==> forall k :: 3 <= k < |block| - 3 - |content| ==> block[k] == '\n')
  {
    var content := LStripNewlines(CodeBody(block));
    LStripNewlinesSkips(CodeBody(block));
    if |block| >= 6 {
      SuffixOfSlice(block, 3, |block| - 3, content);
      forall k | 3 <= k < |block| - 3 - |content| ensures block[k] == '\n' {
        assert block[k] == CodeBody(block)[k - 3];
      }
    }
  }

  /** A paragraph's children are those of its text with each line break turned into a
      space: the same length, no line break left, every other character kept. */
  lemma {:induction false} ParagraphNode(block: string)
    requires BlockTypeOf(block) == ParagraphBlock
    ensures var text := ReplaceChar(block, '\n', ' ');
            && |text| == |block|
            && (forall k :: 0 <= k < |text| ==> text[k] != '\n')
            && (forall k :: 0 <= k < |text| && block[k] != '\n' ==> text[k] == block[k])
            && BlockNode(block) == (match Children(text)
                                    case Success(cs) => Success(Parent("p", cs))
                                    case Failure(e) => Failure(e))
  {
  }

  /** A quote block's children are those of its lines joined by line breaks, each line
      having lost its leading `>` and then its surrounding whitespace. */
  lemma {:induction false} QuoteNode(block: string)
    requires BlockTypeOf(block) == QuoteBlock
    ensures var lines := Lines(block);
            var cleaned := CleanQuoteLines(lines);
            && |cleaned| == |lines|
            && (forall i :: 0 <= i < |lines| ==> 1 <= |lines[i]| && lines[i][0] == '>' && cleaned[i] == Strip(lines[i][1..]))
            && BlockNode(block) == (match Children(JoinWith(cleaned, "\n"))
                                    case Success(cs) => Success(Parent("blockquote", cs))
                                    case Failure(e) => Failure(e))
  {
    var lines := Lines(block);
    forall i | 0 <= i < |lines| ensures 1 <= |lines[i]| && lines[i][0] == '>' {
      assert IsQuoteLine(lines[i]);
    }
  }

  /** In an ordered list block, line `i` starts with `f"{i + 1}. "`, and the first `. `
      in it is the one after the number, so the item's text is what follows that
      prefix. */
  lemma {:induction false} OrderedItemContent(block: string, i: nat)
    requires BlockTypeOf(block) == OrderedListBlock && i < |Lines(block)|
    ensures var line := Lines(block)[i];
            |OrdinalPrefix(i)| <= |line| && ItemContent(line, true) == line[|OrdinalPrefix(i)|..]
  {
    assert IsNumberedLine(Lines(block)[i], i);
    NumberedLineContent(Lines(block)[i], i);
  }

  /** A line that starts with `f"{i + 1}. "` holds its first `. ` right after the number,
      so its item text is what follows that prefix. */
  lemma {:induction false} NumberedLineContent(line: string, i: nat)
    requires IsNumberedLine(line, i)
    ensures |OrdinalPrefix(i)| <= |line| && ItemContent(line, true) == line[|OrdinalPrefix(i)|..]
  {
    var digits := NatToString(i + 1);
    assert line[..|digits| + 2] == digits + ". ";
    forall k | 0 <= k < |digits| ensures !OccursAt(line, ". ", k) {
      assert line[k] == digits[k];
      assert IsDigit(line[k]) && line[k] != '.';
      assert k + 2 <= |line| ==> line[k..k + 2][0] == line[k];
    }
    assert line[|digits|..|digits| + 2] == ". ";
    IndexOfIs(line, ". ", |digits|);
  }

  /** In an unordered list block every item's text is its line after the `- ` or `* `
      marker. */
  lemma {:induction false} UnorderedItemContent(block: string, i: nat)
    requires BlockTypeOf(block) == UnorderedListBlock && i < |Lines(block)|
    ensures var line := Lines(block)[i];
            2 <= |line| && ItemContent(line, false) == line[2..]
            && (line[..2] == "- " || line[..2] == "* ")
  {
    assert IsBulletLine(Lines(block)[i]);
  }

  /** The list fails exactly when the text of some item fails to convert. */
  lemma {:induction false} ListItemsFailure(lines: seq<string>, isOrdered: bool)
    ensures ListItems(lines, isOrdered).Failure?
            <==> exists i :: 0 <= i < |lines| && Children(ItemContent(lines[i], isOrdered)).Failure?
  {
    var rs := ItemNodes(lines, isOrdered);
    CollectFailure(rs);
    if exists i :: 0 <= i < |lines| && Children(ItemContent(lines[i], isOrdered)).Failure? {
      var i :| 0 <= i < |lines| && Children(ItemContent(lines[i], isOrdered)).Failure?;
      assert rs[i].Failure?;
    }
  }

  /** A list that converts has one `li` per line, in order, each holding the children of
      that line's item text. */
  lemma {:induction false} ListItemAt(lines: seq<string>, isOrdered: bool, i: nat)
    requires ListItems(lines, isOrdered).Success? && i < |lines|
    ensures |ListItems(lines, isOrdered).value| == |lines|
    ensures Children(ItemContent(lines[i], isOrdered)).Success?
    ensures ListItems(lines, isOrdered).value[i] == Parent("li", Children(ItemContent(lines[i], isOrdered)).value)
  {
    CollectAt(ItemNodes(lines, isOrdered), i);
  }
}
