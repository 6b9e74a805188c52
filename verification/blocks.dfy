/** Block-level parsing: cutting a document into blocks at blank lines, and deciding
    which kind of block each one is. */
module BlockParsing {
  import opened Wrappers
  import opened PyStr

  const BlankLine := "\n\n"

  // ---------------------------------------------------------------------------
  // markdown_to_blocks
  // ---------------------------------------------------------------------------

  /** The stripped, non-empty pieces, in order. */
  function KeepStripped(pieces: seq<string>): seq<string>
    decreases |pieces|
  {
    if |pieces| == 0 then []
    else
      var block := Strip(pieces[0]);
      (if block != "" then [block] else []) + KeepStripped(pieces[1..])
  }

  /** What `markdown_to_blocks` returns: the pieces between the blank lines, stripped,
      with the empty ones dropped. */
  function Blocks(markdown: string): seq<string> {
    KeepStripped(Split(markdown, BlankLine))
  }

  /** One step of the cleaning loop: the blocks still to come from `pieces[i..]`, after
      those kept so far, are piece `i` (stripped, when not empty) and then the blocks of
      `pieces[i + 1..]`. */
  lemma {:induction false} KeepStrippedStep(pieces: seq<string>, i: nat, kept: seq<string>)
    requires i < |pieces|
    ensures var block := Strip(pieces[i]);
            kept + KeepStripped(pieces[i..])
            == (if block != "" then kept + [block] else kept) + KeepStripped(pieces[i + 1..])
  {
    assert pieces[i..][0] == pieces[i] && pieces[i..][1..] == pieces[i + 1..];
    var block := Strip(pieces[i]);
    var rest := KeepStripped(pieces[i + 1..]);
    if block != "" {
      assert kept + ([block] + rest) == (kept + [block]) + rest;
    } else {
      assert [] + rest == rest;
    }
  }

  /** `markdown_to_blocks`. */
  method MarkdownToBlocks(markdown: string) returns (cleanedBlocks: seq<string>)
    ensures cleanedBlocks == Blocks(markdown)
  {
    var blocks := Split(markdown, BlankLine);
    cleanedBlocks := [];
    assert blocks[0..] == blocks && [] + KeepStripped(blocks) == KeepStripped(blocks);
    for i := 0 to |blocks|
      invariant KeepStripped(blocks) == cleanedBlocks + KeepStripped(blocks[i..])
    {
      KeepStrippedStep(blocks, i, cleanedBlocks);
      var strippedBlock := Strip(blocks[i]);
      if strippedBlock != "" {
        cleanedBlocks := cleanedBlocks + [strippedBlock];
      }
    }
    assert blocks[|blocks|..] == [] && cleanedBlocks + [] == cleanedBlocks;
  }

  /** A well-formed block: not empty, no whitespace at either end, no blank line inside. */
  predicate IsBlock(b: string) {
    b != "" && !IsSpace(b[0]) && !IsSpace(b[|b| - 1]) && IndexOf(b, BlankLine).None?
  }

  lemma {:induction false} StrippedPieceIsBlock(piece: string)
    requires IndexOf(piece, BlankLine).None? && Strip(piece) != ""
    ensures IsBlock(Strip(piece))
  {
    var block := Strip(piece);
    assert !IsSpace(block[0]) && !IsSpace(block[|block| - 1]);
    var i := StripIsSlice(piece);
    AbsentFromSlice(piece, BlankLine, block, i);
  }

  /** Each kept block is the stripped form of some non-blank piece. */
  lemma {:induction false} KeptFrom(pieces: seq<string>, k: nat) returns (j: nat)
    requires k < |KeepStripped(pieces)|
    ensures j < |pieces| && KeepStripped(pieces)[k] == Strip(pieces[j]) != ""
    decreases |pieces|
  {
    var block := Strip(pieces[0]);
    var head := if block != "" then [block] else [];
    var tail := KeepStripped(pieces[1..]);
    assert KeepStripped(pieces) == head + tail;
    if k < |head| {
      j := 0;
    } else {
      var j' := KeptFrom(pieces[1..], k - |head|);
      assert pieces[1..][j'] == pieces[j' + 1];
      j := j' + 1;
    }
  }

  lemma {:induction false} KeepStrippedAreBlocks(pieces: seq<string>)
    requires forall i :: 0 <= i < |pieces| ==> IndexOf(pieces[i], BlankLine).None?
    ensures forall i :: 0 <= i < |KeepStripped(pieces)| ==> IsBlock(KeepStripped(pieces)[i])
  {
    forall k | 0 <= k < |KeepStripped(pieces)| ensures IsBlock(KeepStripped(pieces)[k]) {
      var j := KeptFrom(pieces, k);
      StrippedPieceIsBlock(pieces[j]);
    }
  }

  /** Every block is non-empty, has no leading or trailing whitespace, and holds no blank
      line. */
  lemma {:induction false} BlocksAreBlocks(markdown: string)
    ensures forall i :: 0 <= i < |Blocks(markdown)| ==> IsBlock(Blocks(markdown)[i])
  {
    KeepStrippedAreBlocks(Split(markdown, BlankLine));
  }

  /** Every character of a piece of `sep.join(parts)` is a character of the whole. */
  lemma {:induction false} PartsOfJoin(parts: seq<string>, sep: string)
    ensures forall i, k :: 0 <= i < |parts| && 0 <= k < |parts[i]| ==> parts[i][k] in JoinWith(parts, sep)
    decreases |parts|
  {
    if |parts| > 1 {
      PartsOfJoin(parts[1..], sep);
      var whole := JoinWith(parts, sep);
      var rest := JoinWith(parts[1..], sep);
      assert whole == parts[0] + sep + rest;
      forall i, k | 0 <= i < |parts| && 0 <= k < |parts[i]| ensures parts[i][k] in whole {
        if i == 0 {
          assert whole[k] == parts[0][k];
        } else {
          assert parts[i] == parts[1..][i - 1];
          assert parts[i][k] in rest;
          var m :| 0 <= m < |rest| && rest[m] == parts[i][k];
          assert whole[|parts[0]| + |sep| + m] == rest[m];
        }
      }
    }
  }

  lemma {:induction false} KeepStrippedOfBlank(pieces: seq<string>)
    requires forall i, k :: 0 <= i < |pieces| && 0 <= k < |pieces[i]| ==> IsSpace(pieces[i][k])
    ensures KeepStripped(pieces) == []
    decreases |pieces|
  {
    if |pieces| > 0 {
      StripEmptyIffBlank(pieces[0]);
      forall i, k | 0 <= i < |pieces[1..]| && 0 <= k < |pieces[1..][i]| ensures IsSpace(pieces[1..][i][k]) {
        assert pieces[1..][i] == pieces[i + 1];
      }
      KeepStrippedOfBlank(pieces[1..]);
    }
  }

  /** A document of whitespace alone (the empty document included) has no blocks. */
  lemma {:induction false} BlocksOfBlank(markdown: string)
    requires forall k :: 0 <= k < |markdown| ==> IsSpace(markdown[k])
    ensures Blocks(markdown) == []
  {
    var pieces := Split(markdown, BlankLine);
    PartsOfJoin(pieces, BlankLine);
    KeepStrippedOfBlank(pieces);
  }

  /** A block that ends in something other than a line break, followed by a blank line:
      the first blank line is the one right after the block. */
  lemma {:induction false} FirstBlankLineAfter(b: string, rest: string)
    requires IsBlock(b)
    ensures IndexOf(b + BlankLine + rest, BlankLine) == Some(|b|)
  {
    var s := b + BlankLine + rest;
    assert s[|b|..|b| + 2] == BlankLine;
    assert OccursAt(s, BlankLine, |b|);
    forall k | 0 <= k < |b| ensures !OccursAt(s, BlankLine, k) {
      if k + 2 <= |b| {
        assert s[k..k + 2] == b[k..k + 2];
        assert !OccursAt(b, BlankLine, k);
      } else {
        assert s[k] == b[|b| - 1];
        assert s[k..k + 2][0] == s[k];
      }
    }
    IndexOfIs(s, BlankLine, |b|);
  }

  /** Joining blocks with blank lines and splitting again gives the blocks back. */
  lemma {:induction false} SplitJoinedBlocks(bs: seq<string>)
    requires |bs| > 0
    requires forall i :: 0 <= i < |bs| ==> IsBlock(bs[i])
    ensures Split(JoinWith(bs, BlankLine), BlankLine) == bs
    decreases |bs|
  {
    if |bs| == 1 {
      assert JoinWith(bs, BlankLine) == bs[0];
    } else {
      var rest := JoinWith(bs[1..], BlankLine);
      assert JoinWith(bs, BlankLine) == bs[0] + BlankLine + rest;
      FirstBlankLineAfter(bs[0], rest);
      SplitAtFirst(JoinWith(bs, BlankLine), BlankLine, bs[0], rest);
      forall i | 0 <= i < |bs| - 1 ensures IsBlock(bs[1..][i]) {
        assert bs[1..][i] == bs[i + 1];
      }
      SplitJoinedBlocks(bs[1..]);
      assert bs == [bs[0]] + bs[1..];
    }
  }

  lemma {:induction false} KeepStrippedOfBlocks(bs: seq<string>)
    requires forall i :: 0 <= i < |bs| ==> IsBlock(bs[i])
    ensures KeepStripped(bs) == bs
    decreases |bs|
  {
    if |bs| > 0 {
      StripOfStripped(bs[0]);
      KeepStrippedOfBlocks(bs[1..]);
      assert bs == [bs[0]] + bs[1..];
    }
  }

  /** Cutting is idempotent: the blocks of the blocks re-joined with blank lines are the
      same blocks. */
  lemma {:induction false} BlocksIdempotent(markdown: string)
    ensures Blocks(JoinWith(Blocks(markdown), BlankLine)) == Blocks(markdown)
  {
    var bs := Blocks(markdown);
    BlocksAreBlocks(markdown);
    if |bs| == 0 {
      assert Split("", BlankLine) == [""];
      assert KeepStripped([""]) == [];
    } else {
      SplitJoinedBlocks(bs);
      KeepStrippedOfBlocks(bs);
    }
  }

  // ---------------------------------------------------------------------------
  // block_to_block_type
  // ---------------------------------------------------------------------------

  datatype BlockType =
    | ParagraphBlock
    | HeadingBlock
    | CodeBlock
    | QuoteBlock
    | UnorderedListBlock
    | OrderedListBlock

  /** The number of `#` characters the text starts with. */
  function LeadingHashes(s: string): (n: nat)
    ensures n <= |s|
    ensures forall k :: 0 <= k < n ==> s[k] == '#'
    ensures n < |s| ==> s[n] != '#'
    decreases |s|
  {
    if |s| > 0 && s[0] == '#' then 1 + LeadingHashes(s[1..]) else 0
  }

  /** A run of `n` leading `#` that ends at the end of the text or at another character
      is the leading-hash count. */
  lemma {:induction false} LeadingHashesExact(s: string, n: nat)
    requires n <= |s| && (n < |s| ==> s[n] != '#')
    requires forall k :: 0 <= k < n ==> s[k] == '#'
    ensures LeadingHashes(s) == n
  {
    if n > 0 {
      LeadingHashesExact(s[1..], n - 1);
    }
  }

  /** `re.match(r"^#{1,6} ", block)`, in the form the greedy repetition takes: the run of
      leading `#` is one to six long and a space follows it. */
  predicate IsHeading(block: string) {
    var n := LeadingHashes(block);
    1 <= n <= 6 && n < |block| && block[n] == ' '
  }

  /** The pattern's own reading: some count from one to six of `#`, then a space. */
  predicate MatchesHeadingPattern(block: string) {
    exists n :: 1 <= n <= 6 && n < |block| && block[n] == ' ' && StartsWith(block, HashRun(n))
  }

  function HashRun(n: nat): (r: string)
    ensures |r| == n && forall k :: 0 <= k < n ==> r[k] == '#'
  {
    seq(n, _ => '#')
  }

  /** The leading-hash count decides the pattern: backtracking in `#{1,6}` cannot find
      another way to match. */
  lemma {:induction false} HeadingPatternExact(block: string)
    ensures IsHeading(block) <==> MatchesHeadingPattern(block)
  {
    var m := LeadingHashes(block);
    if IsHeading(block) {
      assert block[..m] == HashRun(m);
      assert StartsWith(block, HashRun(m));
    }
    if MatchesHeadingPattern(block) {
      var n :| 1 <= n <= 6 && n < |block| && block[n] == ' ' && StartsWith(block, HashRun(n));
      forall k | 0 <= k < n ensures block[k] == '#' {
        assert block[..n][k] == HashRun(n)[k];
      }
      LeadingHashesExact(block, n);
    }
  }

  /** Starts and ends with three backticks. */
  predicate IsCodeFence(block: string) {
    StartsWith(block, "```") && EndsWith(block, "```")
  }

  function Lines(block: string): seq<string> {
    Split(block, "\n")
  }

  predicate IsQuoteLine(line: string) {
    StartsWith(line, ">")
  }

  predicate IsBulletLine(line: string) {
    StartsWith(line, "- ") || StartsWith(line, "* ")
  }

  /** The prefix line `i` (from zero) of an ordered list must start with: `f"{i + 1}. "`. */
  function OrdinalPrefix(i: nat): string {
    NatToString(i + 1) + ". "
  }

  predicate AllQuoteLines(lines: seq<string>) {
    forall i :: 0 <= i < |lines| ==> IsQuoteLine(lines[i])
  }

  predicate AllBulletLines(lines: seq<string>) {
    forall i :: 0 <= i < |lines| ==> IsBulletLine(lines[i])
  }

  /** Line `i` of an ordered list starts with its number and `. `. */
  predicate IsNumberedLine(line: string, i: nat) {
    StartsWith(line, OrdinalPrefix(i))
  }

  predicate AllNumberedLines(lines: seq<string>) {
    forall i :: 0 <= i < |lines| ==> IsNumberedLine(lines[i], i)
  }

  /** What `block_to_block_type` returns: the first of heading, code, quote, unordered
      list and ordered list whose test the block passes, and paragraph otherwise. */
  function BlockTypeOf(block: string): BlockType {
    if IsHeading(block) then HeadingBlock
    else if IsCodeFence(block) then CodeBlock
    else if AllQuoteLines(Lines(block)) then QuoteBlock
    else if AllBulletLines(Lines(block)) then UnorderedListBlock
    else if AllNumberedLines(Lines(block)) then OrderedListBlock
    else ParagraphBlock
  }

  /** `block_to_block_type`: the heading pattern, the fence test, then the three line
      tests in order. */
  method BlockToBlockType(block: string) returns (t: BlockType)
    ensures t == BlockTypeOf(block)
  {
    if IsHeading(block) {
      return HeadingBlock;
    }
    if StartsWith(block, "```") && EndsWith(block, "```") {
      return CodeBlock;
    }
    var lines := Split(block, "\n");
    var isQuote := AllLinesQuoted(lines);
    if isQuote {
      return QuoteBlock;
    }
    var isUnorderedList := AllLinesBulleted(lines);
    if isUnorderedList {
      return UnorderedListBlock;
    }
    var isOrderedList := AllLinesNumbered(lines);
    if isOrderedList {
      return OrderedListBlock;
    }
    return ParagraphBlock;
  }

  /** The quote test's loop: stops at the first line without `>`. */
  method AllLinesQuoted(lines: seq<string>) returns (isQuote: bool)
    ensures isQuote <==> AllQuoteLines(lines)
  {
    isQuote := true;
    for i := 0 to |lines|
      invariant isQuote && forall j :: 0 <= j < i ==> IsQuoteLine(lines[j])
    {
      if !StartsWith(lines[i], ">") {
        isQuote := false;
        break;
      }
    }
  }

  /** The unordered-list test's loop: stops at the first line without `- ` or `* `. */
  method AllLinesBulleted(lines: seq<string>) returns (isUnorderedList: bool)
    ensures isUnorderedList <==> AllBulletLines(lines)
  {
    isUnorderedList := true;
    for i := 0 to |lines|
      invariant isUnorderedList && forall j :: 0 <= j < i ==> IsBulletLine(lines[j])
    {
      if !(StartsWith(lines[i], "- ") || StartsWith(lines[i], "* ")) {
        isUnorderedList := false;
        break;
      }
    }
  }

  /** The ordered-list test's loop: stops at the first line `i` that does not start with
      `f"{i + 1}. "`. */
  method AllLinesNumbered(lines: seq<string>) returns (isOrderedList: bool)
    ensures isOrderedList <==> AllNumberedLines(lines)
  {
    isOrderedList := true;
    for i := 0 to |lines|
      invariant isOrderedList && forall j :: 0 <= j < i ==> IsNumberedLine(lines[j], j)
    {
      var expectedPrefix := NatToString(i + 1) + ". ";
      if !StartsWith(lines[i], expectedPrefix) {
        isOrderedList := false;
        break;
      }
    }
  }

  /** The empty block is a paragraph: its one line is empty and passes no line test. */
  lemma {:induction false} EmptyBlockIsParagraph()
    ensures BlockTypeOf("") == ParagraphBlock
  {
    assert Lines("") == [""];
    assert !StartsWith("", OrdinalPrefix(0));
  }

  /** A heading block has one to six leading `#` and then a space. */
  lemma {:induction false} HeadingLevelInRange(block: string)
    requires BlockTypeOf(block) == HeadingBlock
    ensures 1 <= LeadingHashes(block) <= 6 && block[LeadingHashes(block)] == ' '
  {
  }

  /** Seven or more leading `#` never make a heading. */
  lemma {:induction false} SevenHashesNotHeading(block: string)
    requires LeadingHashes(block) >= 7
    ensures BlockTypeOf(block) != HeadingBlock
  {
  }

  /** Every line of a list block starts with its marker: `- ` or `* ` in an unordered
      list, `1. `, `2. `, ... in an ordered one. */
  lemma {:induction false} ListLinesHaveMarkers(block: string)
    ensures BlockTypeOf(block) == UnorderedListBlock ==>
              forall i :: 0 <= i < |Lines(block)| ==> IsBulletLine(Lines(block)[i])
    ensures BlockTypeOf(block) == OrderedListBlock ==>
              forall i :: 0 <= i < |Lines(block)| ==> IsNumberedLine(Lines(block)[i], i)
  {
  }
}
