# Markdown to HTML tree, modelled in Dafny

This project models the core of a small static-site generator's Markdown front end:

- the inline parser: code, bold and italic delimiters, `![alt](url)` images and `[text](url)` links;
- the block parser: blank-line segmentation and the six-way block classifier;
- the tree builder, which turns each block into a tagged node under one `div`;
- the title extractor;
- the two Markdown extractors;
- the text-run record and the HTML node's attribute serialiser.

The modules follow the source files:

| module | file | models |
|---|---|---|
| `Wrappers` | `wrappers.dfy` | `Option`, and `Result`, which stands for a raised exception and its message |
| `PyStr` | `pystr.dfy` | the Python `str` operations the source relies on: `split`, `split(d, 1)`, `find`, `join`, `strip`, `lstrip`, `rstrip`, `lstrip('\n')`, `replace`, `startswith`, `endswith`, `str(n)` |
| `TextNodes` | `textnode.dfy` | `src/textnode.py` |
| `HtmlNodes` | `htmlnode.dfy` | `src/htmlnode.py`, plus the tree datatype the builder produces |
| `MarkdownUtils` | `markdown_utils.dfy` | `src/markdown_utils.py`: the two regular expressions as hand-written matchers, and `re.findall` over them |
| `Inline` | `inline.dfy` | `split_nodes_delimiter`, `split_nodes_image`, `split_nodes_link`, `text_to_textnodes` |
| `BlockParsing` | `blocks.dfy` | `markdown_to_blocks`, `block_to_block_type` |
| `TreeBuilder` | `tree.dfy` | `text_to_children`, `convert_list_items`, `block_to_html_node`, `markdown_to_html_node`, `extract_title` |

Each looping Python function has two parts:

- a Dafny `method` with the same loop, whose `ensures` ties its result to a specification function;
- lemmas about that function, which state what the source promises.

The two regular expressions are `!\[(.*?)\]\((.*?)\)` and `(?<!!)\[(.*?)\]\((.*?)\)`. They are implemented by scanning:

1. find the opening;
2. find the first `](` after it on the same line;
3. find the first `)` after that on the same line.

`MarkdownUtils.MatchAtIsLeastRegexMatch` shows that this scan finds a match exactly when the declarative pattern matches. It also shows that the match found is the one the lazy groups prefer.

A raised exception is a `Failure` carrying the source's message text. This covers the `ValueError` of an unclosed delimiter, the `Exception` of a missing title and the base node's `NotImplementedError`.

## Model

| member | source | states |
|---|---|---|
| TextNodes.Run | src/textnode.py:21-32 | A run built without a URL has no URL, and keeps the given text and kind. |
| TextNodes.Equals | src/textnode.py:34-45 | Two runs compare equal exactly when text, kind and URL all agree. A run that differs in any one field, a URL against none included, is unequal. |
| HtmlNodes.ToHtml | src/htmlnode.py:17-22 | The base node's `to_html` always fails with "to_html method not implemented". |
| HtmlNodes.PropsToHtml | src/htmlnode.py:24-40 | The loop's result is `AttributeString`: empty when there are no attributes or the mapping is empty. Otherwise it is every attribute as ` key="value"`, in order, so the result is empty or starts with a space. |
| HtmlNodes.JoinIsSpaced | src/htmlnode.py:37-40 | One space followed by the attributes joined with single spaces is the same as a space before each attribute. |
| HtmlNodes.SingleAttribute | src/htmlnode.py:24-40 | One attribute `k -> v` serialises to exactly ` k="v"`. |
| HtmlNodes.AttributeOccurs | src/htmlnode.py:33-40 | Every attribute appears in the output as ` key="value"`, at the offset where the attributes before it end. |
| HtmlNodes.SpacedAttributesAppend | src/htmlnode.py:33-40 | Serialising two attribute lists one after the other gives the concatenation of their serialisations. |
| PyStr.Split | src/text_to_textnodes.py:51 | `str.split`: at least one piece; the pieces joined with the separator give the text back; no piece contains the separator. There is one piece exactly when the separator is absent; otherwise the first cut is at the leftmost occurrence. |
| PyStr.SplitAtFirst | src/text_to_textnodes.py:51 | Splitting at the leftmost occurrence gives the text before it, then the pieces of the text after it. |
| PyStr.SplitCounts | src/text_to_textnodes.py:51-55 | The number of pieces is one more than the number of non-overlapping occurrences. The pieces concatenated are the text with every occurrence deleted. |
| PyStr.SplitOnce | src/text_to_textnodes.py:314 | `split('. ', 1)`: one or two pieces that join back to the line; the first piece holds no separator; there is one piece exactly when the separator is absent. |
| PyStr.IndexOf | src/text_to_textnodes.py:314 | The index found is an occurrence and no occurrence starts earlier; no index means no occurrence at all. |
| PyStr.StripIsTrimmedSlice | src/text_to_textnodes.py:221 | `strip()` returns a slice of the text with only whitespace outside it. |
| PyStr.Strip | src/text_to_textnodes.py:221 | The stripped text is empty or has no whitespace at either end. |
| PyStr.StripEmptyIffBlank | src/text_to_textnodes.py:221-222 | The stripped text is empty exactly when the text is all whitespace. |
| PyStr.StripOfStripped | src/text_to_textnodes.py:221 | Text with no whitespace at either end is left unchanged by `strip()`. |
| PyStr.LStripIsSuffix | src/text_to_textnodes.py:354 | `lstrip()` leaves a suffix of the text. |
| PyStr.LStripSkipsSpace | src/text_to_textnodes.py:354 | `lstrip()` removes only whitespace. |
| PyStr.RStripIsPrefix | src/text_to_textnodes.py:354 | `rstrip()` leaves a prefix of the text. |
| PyStr.RStripSkipsSpace | src/text_to_textnodes.py:354 | `rstrip()` removes only whitespace. |
| PyStr.LStripNewlinesSkips | src/text_to_textnodes.py:360 | `lstrip('\n')` leaves a suffix and removes only line breaks. |
| PyStr.ReplaceChar | src/text_to_textnodes.py:345 | `replace('\n', ' ')` keeps the length; every line break becomes a space; every other character is kept. |
| PyStr.NatToString | src/text_to_textnodes.py:275 | `f"{n}"` is a non-empty string of decimal digits with no leading zero. |
| PyStr.ParseNatToString | src/text_to_textnodes.py:275 | Reading back the digits of `f"{n}"` gives `n`, so distinct numbers get distinct prefixes. |
| MarkdownUtils.FindGroupEnd | src/markdown_utils.py:16 | It finds the first `](` at or after the group start that lies on the same line, and none earlier on that line. |
| MarkdownUtils.FindGroupClose | src/markdown_utils.py:16 | It finds the first `)` at or after the second group's start on the same line, and none earlier on that line. |
| MarkdownUtils.MatchAt | src/markdown_utils.py:16 | A match at `p` begins with the pattern's opening and ends inside the text. The text it spans is exactly `![t](u)` (or `[t](u)`) rebuilt from its groups. |
| MarkdownUtils.SpanRenders | src/markdown_utils.py:16 | The span from the opening to the closing `)` is the opening, group 1, `](`, group 2 and `)`. |
| MarkdownUtils.MatchAtSound | src/markdown_utils.py:16 | A reported match satisfies the declarative pattern, and its groups are the text between its delimiters. |
| MarkdownUtils.MatchAtLeast | src/markdown_utils.py:16 | Wherever the declarative pattern matches, a match is reported, and its groups are no longer than that match's groups. |
| MarkdownUtils.MatchAtIsLeastRegexMatch | src/markdown_utils.py:14-16 | A match is found exactly when the pattern matches at `p`. The one found is the lazy-group match: the shortest first group, then the shortest second group. |
| MarkdownUtils.NextMatch | src/markdown_utils.py:16 | The leftmost match at or after `pos`: there is no match between `pos` and it, and none at all when nothing is found. |
| MarkdownUtils.FindAll | src/markdown_utils.py:16 | `re.findall`'s matches lie left to right without overlapping. Each one is the match the pattern makes at its own start. Completeness is in `FindAllComplete`. |
| MarkdownUtils.InOrderAfter | src/markdown_utils.py:16 | Every reported match starts at or after the search position and is a non-empty span inside the text. |
| MarkdownUtils.InOrderSeparated | src/markdown_utils.py:16 | Of two reported matches, the earlier one ends before the later one starts. |
| MarkdownUtils.NextMatchReaches | src/markdown_utils.py:16 | Where the pattern matches at `p`, the search from any earlier position finds a match that starts no later than `p`. |
| MarkdownUtils.FindAllComplete | src/markdown_utils.py:16 | No match is skipped: wherever the pattern matches, outside every reported match, a reported match starts there. |
| MarkdownUtils.StartUncovered | src/markdown_utils.py:16 | Reported matches do not overlap: the start of a reported match lies inside no reported match. |
| MarkdownUtils.FindAllExactly | src/markdown_utils.py:16 | A position starts a reported match exactly when the pattern matches there and the position lies inside no reported match. |
| MarkdownUtils.ImagesExactly | src/markdown_utils.py:3-17 | `extract_markdown_images` gives the (alt, url) pairs of the image matches, in text order. A match is reported exactly where the image pattern matches outside every reported image. |
| MarkdownUtils.LinksExactly | src/markdown_utils.py:19-33 | `extract_markdown_links` gives the (text, url) pairs of the link matches, in text order. A match is reported exactly where the link pattern matches outside every reported link. |
| MarkdownUtils.Groups | src/markdown_utils.py:16-17 | One (group 1, group 2) pair per match, in order. |
| MarkdownUtils.FindAllWithoutOpening | src/markdown_utils.py:16 | If the pattern's opening occurs nowhere, nothing is found. |
| MarkdownUtils.NoImageOpening | src/markdown_utils.py:16 | Text without `![` has no image opening. |
| MarkdownUtils.NoImageWithoutOpening | src/markdown_utils.py:3-17 | Text without `![` has no images. |
| MarkdownUtils.NoLinkWithoutBracket | src/markdown_utils.py:19-33 | Text without `[` has no links. |
| MarkdownUtils.LinksAreNotImages | src/markdown_utils.py:30-33 | No reported link starts right after `!`. Every reported link spans `[text](url)` in the text, and the pair reported is (text, url). |
| MarkdownUtils.ImagesAreSpelledOut | src/markdown_utils.py:14-17 | Every reported image spans `![alt](url)` in the text, and the pair reported is (alt, url). |
| Inline.SplitNodesDelimiter | src/text_to_textnodes.py:22-68 | The loop returns exactly `SplitDelimited`: each run's parts in order, or the error of the first unclosed run. |
| Inline.AppendParts | src/text_to_textnodes.py:60-67 | The inner loop appends, in order, one run for each non-empty part: plain at even indices, the delimited kind at odd ones. |
| Inline.SplitDelimitedUnfold | src/text_to_textnodes.py:40-68 | The result for `nodes[n..]` is what `nodes[n]` becomes, followed by the result for the rest, or the first error. |
| Inline.TagPartsShape | src/text_to_textnodes.py:60-67 | Every run the parts become is non-empty, has no URL, and is plain or of the delimited kind. |
| Inline.TextsOfTagParts | src/text_to_textnodes.py:60-67 | The texts of the runs made from the parts, concatenated, are the parts concatenated. |
| Inline.SplitDelimitedNodeFails | src/text_to_textnodes.py:51-56 | A plain, non-empty run fails exactly when it holds an odd number of delimiters. The error then reads `Invalid Markdown syntax: Unclosed delimiter '<d>' found in '<text>'`. |
| Inline.SplitDelimitedNodeText | src/text_to_textnodes.py:51-67 | On success, the runs spell the text with every delimiter deleted, and none of them is empty. |
| Inline.SplitDelimitedNodeError | src/text_to_textnodes.py:40-56 | Any single run fails exactly when it is plain, non-empty and unclosed, and then with its own message. |
| Inline.SplitDelimitedFailure | src/text_to_textnodes.py:40-68 | The list fails exactly when some run in it is unclosed. |
| Inline.FirstUnclosedError | src/text_to_textnodes.py:40-56 | The error raised is the message of the first unclosed run. |
| Inline.SplitDelimitedKeepsStyled | src/text_to_textnodes.py:42-44 | Runs that are not plain pass through unchanged and in order. |
| Inline.EmptyPlainDropped | src/text_to_textnodes.py:46-49 | An empty plain run contributes nothing. |
| Inline.SplitDelimitedPlainNonEmpty | src/text_to_textnodes.py:61-65 | No plain run in a successful result is empty. |
| Inline.NoDelimiterKeepsRun | src/text_to_textnodes.py:51-67 | A non-empty plain run without the delimiter comes back unchanged. |
| Inline.SplitNodesMatching | src/text_to_textnodes.py:82-122 | The loop shared by the image and link splitters returns `SplitMatches`. |
| Inline.AppendMatches | src/text_to_textnodes.py:102-120 | The inner loop appends the text before each match (when non-empty), the match as an image or link run, and finally the non-empty rest. |
| Inline.EmitStep | src/text_to_textnodes.py:103-115 | One iteration of the inner loop appends the gap before the next match, then the match. |
| Inline.EmitEnd | src/text_to_textnodes.py:117-120 | After the last match, only the non-empty rest is appended. |
| Inline.SplitNodesImage | src/text_to_textnodes.py:71-122 | `split_nodes_image` is `SplitMatches` with the image pattern. |
| Inline.SplitNodesLink | src/text_to_textnodes.py:125-176 | `split_nodes_link` is `SplitMatches` with the link pattern. |
| Inline.EmitRoundTrip | src/text_to_textnodes.py:102-120 | The runs made from one text, written back as Markdown, spell that text again. |
| Inline.SplitMatchesRoundTrip | src/text_to_textnodes.py:82-122 | Writing the splitter's output back as Markdown rebuilds its input: images and links re-rendered, gaps as their text. |
| Inline.NoMatchPassesThrough | src/text_to_textnodes.py:83-100 | A run that is not plain, or a non-empty plain run without a match, passes through unchanged. |
| Inline.TargetsOfEmit | src/text_to_textnodes.py:103-115 | The (text, URL) pairs of the image or link runs made from a text are the groups of its matches, in order. |
| Inline.ExtractorsAgreeWithSplitters | src/text_to_textnodes.py:95-112 | The image and link extractors report exactly the pairs of the image and link runs the splitters make of the same text. |
| Inline.TextToTextNodes | src/text_to_textnodes.py:179-203 | Code spans, images, links, bold, then italic, applied in that order to the text as one plain run. |
| Inline.TextToTextNodesEmpty | src/text_to_textnodes.py:190-203 | The empty text yields no runs. |
| Inline.TextToTextNodesPlain | src/text_to_textnodes.py:190-203 | Non-empty text without `` ` ``, `*`, `_` or `[` yields one plain run of the whole text. |
| Inline.TextToTextNodesUnclosedCode | src/text_to_textnodes.py:190-193 | An odd number of backticks fails the whole parse with the backtick error naming the text. |
| Inline.TextToTextNodesNoEmptyPlain | src/text_to_textnodes.py:200-203 | No plain run in a successful parse is empty. |
| BlockParsing.MarkdownToBlocks | src/text_to_textnodes.py:205-225 | The loop returns `Blocks`: the stripped, non-empty pieces between `\n\n`, in order. |
| BlockParsing.KeepStrippedStep | src/text_to_textnodes.py:220-223 | One iteration keeps the stripped piece exactly when it is non-empty. |
| BlockParsing.StrippedPieceIsBlock | src/text_to_textnodes.py:217-223 | A piece without a blank line, once stripped and non-empty, is a well-formed block. |
| BlockParsing.KeptFrom | src/text_to_textnodes.py:219-223 | Each kept block is the non-empty stripped form of some piece. |
| BlockParsing.KeepStrippedAreBlocks | src/text_to_textnodes.py:219-223 | Pieces without a blank line give only well-formed blocks. |
| BlockParsing.BlocksAreBlocks | src/text_to_textnodes.py:205-225 | Every block is non-empty, has no whitespace at either end, and holds no blank line. |
| BlockParsing.PartsOfJoin | src/text_to_textnodes.py:217 | Every character of a piece appears in the joined text. |
| BlockParsing.KeepStrippedOfBlank | src/text_to_textnodes.py:219-223 | Pieces that are all whitespace give no blocks. |
| BlockParsing.BlocksOfBlank | src/text_to_textnodes.py:205-225 | A document that is only whitespace, the empty one included, has no blocks. |
| BlockParsing.FirstBlankLineAfter | src/text_to_textnodes.py:217 | In a block followed by `\n\n`, the first blank line is the one right after the block. |
| BlockParsing.SplitJoinedBlocks | src/text_to_textnodes.py:217 | Joining well-formed blocks with `\n\n` and splitting again gives the blocks back. |
| BlockParsing.KeepStrippedOfBlocks | src/text_to_textnodes.py:219-223 | Cleaning well-formed blocks changes nothing. |
| BlockParsing.BlocksIdempotent | src/text_to_textnodes.py:205-225 | Cutting is idempotent: the blocks of the blocks re-joined with `\n\n` are the same blocks. |
| BlockParsing.LeadingHashes | src/text_to_textnodes.py:348-353 | The count of leading `#`: all of them are `#` and the next character is not. |
| BlockParsing.LeadingHashesExact | src/text_to_textnodes.py:348-353 | A run of exactly `n` leading `#` gives the count `n`. |
| BlockParsing.HeadingPatternExact | src/text_to_textnodes.py:241 | `^#{1,6} ` matches exactly when one to six leading `#` are followed by a space; backtracking finds nothing more. |
| BlockParsing.BlockToBlockType | src/text_to_textnodes.py:228-283 | The classifier returns the first of heading, code, quote, unordered list and ordered list whose test passes, or paragraph. |
| BlockParsing.AllLinesQuoted | src/text_to_textnodes.py:251-258 | True exactly when every line starts with `>`. |
| BlockParsing.AllLinesBulleted | src/text_to_textnodes.py:262-268 | True exactly when every line starts with `- ` or `* `. |
| BlockParsing.AllLinesNumbered | src/text_to_textnodes.py:273-280 | True exactly when line `i` starts with `f"{i + 1}. "`, for every `i`. |
| BlockParsing.EmptyBlockIsParagraph | src/text_to_textnodes.py:251-283 | The empty block is a paragraph. |
| BlockParsing.HeadingLevelInRange | src/text_to_textnodes.py:241-242 | A heading has one to six leading `#`, followed by a space. |
| BlockParsing.SevenHashesNotHeading | src/text_to_textnodes.py:241 | Seven or more leading `#` never make a heading. |
| BlockParsing.ListLinesHaveMarkers | src/text_to_textnodes.py:262-280 | Every line of an unordered list starts with `- ` or `* `. Line `i` of an ordered list starts with `f"{i + 1}. "`. |
| TreeBuilder.AsChildren | src/text_to_textnodes.py:298-300 | One inline child per run, in order. |
| TreeBuilder.RunsToChildren | src/text_to_textnodes.py:298-300 | The loop builds one child per run, in order. |
| TreeBuilder.TextToChildren | src/text_to_textnodes.py:286-301 | `text_to_children` returns the inline runs as children, or the inline parser's error. |
| TreeBuilder.PrependTreesAppend | src/text_to_textnodes.py:309-326 | Prepending nodes in two steps is prepending them at once. |
| TreeBuilder.ItemNodes | src/text_to_textnodes.py:310-325 | One item result per line, in order. |
| TreeBuilder.CollectUnfold | src/text_to_textnodes.py:310-326 | Collecting from item `i` on is that item followed by the rest, or its error. |
| TreeBuilder.CollectFailure | src/text_to_textnodes.py:310-326 | Collecting fails exactly when some item fails. |
| TreeBuilder.CollectAt | src/text_to_textnodes.py:310-326 | A successful collection keeps every node, in order. |
| TreeBuilder.ConvertListItems | src/text_to_textnodes.py:304-326 | `convert_list_items` splits the block into lines and returns `ListItems`: one `li` per line, in order, or the first item's error. |
| TreeBuilder.LinesToItems | src/text_to_textnodes.py:309-326 | The loop over the lines returns `ListItems`. |
| TreeBuilder.ItemText | src/text_to_textnodes.py:311-321 | An item's text: after the first `. ` for an ordered list (the whole line if there is none), or after the first two characters for an unordered one. |
| TreeBuilder.ListItemsFailure | src/text_to_textnodes.py:304-326 | The list fails exactly when some item's text fails to convert. |
| TreeBuilder.ListItemAt | src/text_to_textnodes.py:304-326 | A converted list has one `li` per line, in order, each holding its line's item children. |
| TreeBuilder.NumberedLineContent | src/text_to_textnodes.py:312-318 | A line starting with `f"{i + 1}. "` has its first `. ` right after the number, so its item text follows that prefix. |
| TreeBuilder.OrderedItemContent | src/text_to_textnodes.py:312-318 | In an ordered list block, item `i`'s text is its line after `f"{i + 1}. "`. |
| TreeBuilder.UnorderedItemContent | src/text_to_textnodes.py:319-321 | In an unordered list block, each item's text is its line after the `- ` or `* ` marker. |
| TreeBuilder.CleanQuoteLines | src/text_to_textnodes.py:366 | One cleaned line per quote line: the line without its first character, stripped. |
| TreeBuilder.HeadingLevel | src/text_to_textnodes.py:348-353 | The heading-level loop counts the leading `#`. |
| TreeBuilder.BlockToHtmlNode | src/text_to_textnodes.py:329-377 | `block_to_html_node` returns `BlockNode`, by the block's type. |
| TreeBuilder.HeadingNode | src/text_to_textnodes.py:347-356 | A heading's tag is `h1` to `h6`, from its count of `#`. Its children are those of the text after the marks, stripped. |
| TreeBuilder.SingleDigitTag | src/text_to_textnodes.py:356 | A level below ten is written with one digit after `h`. |
| TreeBuilder.CodeNode | src/text_to_textnodes.py:357-362 | A code block never fails: it is a `pre` holding one `code` leaf. |
| TreeBuilder.CodeContent | src/text_to_textnodes.py:358-360 | The code text is the end of what lies between the fences; only leading line breaks were dropped. A block shorter than two fences gives empty text. |
| TreeBuilder.ParagraphNode | src/text_to_textnodes.py:344-346 | A paragraph's children come from its text with every line break turned into a space; nothing else changes. |
| TreeBuilder.QuoteNode | src/text_to_textnodes.py:363-369 | Every quote line starts with `>`. The children come from the lines, each without `>` and stripped, joined by line breaks. |
| TreeBuilder.BlockResults | src/text_to_textnodes.py:392-395 | One node result per block, in order. |
| TreeBuilder.BlockNodesUnfold | src/text_to_textnodes.py:392-395 | The nodes from block `i` on are that block's node followed by the rest. An empty block is skipped. |
| TreeBuilder.BlockNodesCollect | src/text_to_textnodes.py:390-397 | When no block is empty, nothing is skipped. |
| TreeBuilder.BlockNodesSpec | src/text_to_textnodes.py:390-397 | The conversion fails exactly when some block fails. Otherwise there is one node per block, in order. |
| TreeBuilder.MarkdownToHtmlNode | src/text_to_textnodes.py:380-397 | `markdown_to_html_node` returns `DocumentNode`. |
| TreeBuilder.DocumentChildren | src/text_to_textnodes.py:380-397 | The document fails exactly when some block fails. Otherwise it is a `div` with one child per block, in order, each the block's own node. |
| TreeBuilder.BlankDocument | src/text_to_textnodes.py:380-397 | A document of whitespace alone is an empty `div`. |
| TreeBuilder.ExtractTitle | src/text_to_textnodes.py:399-416 | `extract_title` returns `Title`. |
| TreeBuilder.TitleFound | src/text_to_textnodes.py:412-416 | A title is found exactly when some line starts with `# `. Otherwise the error is "No H1 header found in markdown.". |
| TreeBuilder.TitleIsFirst | src/text_to_textnodes.py:412-416 | The title is the first `# ` line without its marker, stripped. |

## Left out

- `LeafNode`, `ParentNode` and `text_node_to_html_node` are imported by `src/text_to_textnodes.py:6` but are not defined in `src/htmlnode.py`. They are not part of this model. The builder's output is the `HtmlTree` datatype: `Parent(tag, children)` stands for `ParentNode`, and `Leaf` stands for the code block's `LeafNode`. Each inline child is `InlineRun(run)`, which stands for the leaf `text_node_to_html_node` would make of the run; that conversion is not modelled.
- No HTML string rendering beyond `to_html` of the base node: the subclasses that render are not part of this model.
- The `__repr__` methods of `TextNode` and `HTMLNode`, and the `__main__` demo in `src/textnode.py`, are left out: they only format text for printing.
- `src/utils.py` and `src/main.py` are left out: they do file I/O.
- The class of a raised exception (`ValueError`, `Exception`, `NotImplementedError`) is not kept. A `Failure` carries only the message text.
- `TextNode.__eq__` returning `NotImplemented` for a non-`TextNode` operand is left out: Dafny values are typed, so only runs are compared.
- The general regular-expression engine is left out. Each of the three fixed patterns is a hand-written matcher, with a lemma tying it to the pattern's meaning (`MatchAtIsLeastRegexMatch`, `HeadingPatternExact`).
- `str.split` with an empty separator, which raises in Python, is excluded by the precondition `|d| > 0`. Every call in the source passes a non-empty literal.
- `block_to_html_node`'s final `raise ValueError("Unknown block type…")` is left out: `BlockType` is a closed datatype and the classifier always returns one of its six values. `markdown_to_html_node`'s `if block:` guard is kept in `BlockNodes`, although blocks are never empty.
- The loops of `block_to_block_type` (quote, unordered and ordered tests), the heading-level loop, the inner loops of the splitters, the loops of `text_to_children` and `convert_list_items`, and the item-text step are separate helper methods rather than inline code: `AllLinesQuoted`, `AllLinesBulleted`, `AllLinesNumbered`, `HeadingLevel`, `AppendParts`, `AppendMatches`, `RunsToChildren`, `LinesToItems` and `ItemText`. The loop bodies and early exits are unchanged.
- The code block's text follows `src/text_to_textnodes.py:360`, which removes every leading line break with `lstrip('\n')`. The comment beside that line says only one line break is removed.
- The first seven `TextType` members are the ones `src/textnode.py:3-14` declares. `Bold`, `Italic`, `Link` and `Image` are added because the splitters use them, but the enumeration lacks them; in Python those attribute lookups would fail.
- Python's `str.isspace` is modelled by a fixed list: ASCII whitespace, the information separators `\x1c`–`\x1f`, and the Unicode space and line separators. No other Unicode property is modelled.
