/** The inline parser: the delimiter splitter, the image and link splitters, and their
    fixed-order composition `text_to_textnodes`. Each splitter is a loop in the source
    and appears here as a method proved equal to the function that specifies it. */
module Inline {
  import opened Wrappers
  import opened PyStr
  import opened TextNodes
  import opened MarkdownUtils

  // ---------------------------------------------------------------------------
  // split_nodes_delimiter
  // ---------------------------------------------------------------------------

  /** The message of the error raised for an unmatched delimiter. */
  function UnclosedMessage(delimiter: string, text: string): string {
    "Invalid Markdown syntax: Unclosed delimiter '" + delimiter + "' found in '" + text + "'"
  }

  /** A plain, non-empty run whose text holds an odd number of delimiters. */
  predicate Unclosed(node: TextNode, delimiter: string)
    requires |delimiter| > 0
  {
    node.textType == PlainText && node.text != "" && Occurrences(node.text, delimiter) % 2 == 1
  }

  /** What part `i` of the split becomes: nothing when it is empty, otherwise a plain
      run at an even index and a run of the delimited kind at an odd one. */
  function TagPart(part: string, i: nat, textType: TextType): seq<TextNode> {
    if part == "" then [] else [Run(part, if i % 2 == 0 then PlainText else textType)]
  }

  /** The runs that `parts[i..]` become, in order. */
  function TagParts(parts: seq<string>, i: nat, textType: TextType): seq<TextNode>
    decreases |parts| - i
  {
    if i >= |parts| then [] else TagPart(parts[i], i, textType) + TagParts(parts, i + 1, textType)
  }

  predicate ShapedRun(n: TextNode, textType: TextType) {
    n.text != "" && n.url.None? && (n.textType == PlainText || n.textType == textType)
  }

  /** Every run the parts become is non-empty, has no URL, and is plain or of the
      delimited kind. */
  lemma {:induction false} TagPartsShape(parts: seq<string>, i: nat, textType: TextType)
    ensures forall k :: 0 <= k < |TagParts(parts, i, textType)| ==> ShapedRun(TagParts(parts, i, textType)[k], textType)
    decreases |parts| - i
  {
    if i < |parts| {
      TagPartsShape(parts, i + 1, textType);
      var head := TagPart(parts[i], i, textType);
      var tail := TagParts(parts, i + 1, textType);
      var r := TagParts(parts, i, textType);
      assert r == head + tail;
      forall k | 0 <= k < |r| ensures ShapedRun(r[k], textType) {
        if k < |head| {
          assert head == [Run(parts[i], if i % 2 == 0 then PlainText else textType)];
          assert r[k] == head[k];
          assert parts[i] != "";
        } else {
          var j := k - |head|;
          assert r[k] == tail[j];
        }
      }
    }
  }

  /** What `split_nodes_delimiter` makes of one run. */
  function SplitDelimitedNode(node: TextNode, delimiter: string, textType: TextType): Result<seq<TextNode>>
    requires |delimiter| > 0
  {
    if node.textType != PlainText then Success([node])
    else if node.text == "" then Success([])
    else
      var parts := Split(node.text, delimiter);
      if |parts| % 2 == 0 then Failure(UnclosedMessage(delimiter, node.text))
      else Success(TagParts(parts, 0, textType))
  }

  /** What `split_nodes_delimiter` makes of a list of runs: the runs each one becomes,
      in order, or the error of the first run that fails. */
  function SplitDelimited(nodes: seq<TextNode>, delimiter: string, textType: TextType): Result<seq<TextNode>>
    requires |delimiter| > 0
    decreases |nodes|
  {
    if |nodes| == 0 then Success([])
    else
      var first :- SplitDelimitedNode(nodes[0], delimiter, textType);
      var rest :- SplitDelimited(nodes[1..], delimiter, textType);
      Success(first + rest)
  }

  /** `acc` followed by the runs of `r`, or the error of `r`. */
  function Prepend(acc: seq<TextNode>, r: Result<seq<TextNode>>): Result<seq<TextNode>> {
    match r
    case Success(rest) => Success(acc + rest)
    case Failure(e) => Failure(e)
  }

  lemma {:induction false} PrependAppend(acc: seq<TextNode>, more: seq<TextNode>, r: Result<seq<TextNode>>)
    ensures Prepend(acc, Prepend(more, r)) == Prepend(acc + more, r)
    ensures Prepend([], r) == r
  {
    if r.Success? {
      assert acc + (more + r.value) == (acc + more) + r.value;
      assert [] + r.value == r.value;
    }
  }

  /** The result for `nodes[n..]` is what `nodes[n]` becomes followed by the result for
      `nodes[n + 1..]`, or the first of their errors. */
  lemma {:induction false} SplitDelimitedUnfold(nodes: seq<TextNode>, n: nat, delimiter: string, textType: TextType)
    requires |delimiter| > 0 && n < |nodes|
    ensures var head := SplitDelimitedNode(nodes[n], delimiter, textType);
            SplitDelimited(nodes[n..], delimiter, textType)
            == if head.Failure? then Failure(head.error)
               else Prepend(head.value, SplitDelimited(nodes[n + 1..], delimiter, textType))
  {
    assert nodes[n..][0] == nodes[n] && nodes[n..][1..] == nodes[n + 1..];
  }

  /** `split_nodes_delimiter`. */
  method SplitNodesDelimiter(oldNodes: seq<TextNode>, delimiter: string, textType: TextType)
    returns (r: Result<seq<TextNode>>)
    requires |delimiter| > 0
    ensures r == SplitDelimited(oldNodes, delimiter, textType)
  {
    var newNodes: seq<TextNode> := [];
    assert oldNodes[0..] == oldNodes;
    PrependAppend([], [], SplitDelimited(oldNodes, delimiter, textType));
    for n := 0 to |oldNodes|
      invariant SplitDelimited(oldNodes, delimiter, textType)
                == Prepend(newNodes, SplitDelimited(oldNodes[n..], delimiter, textType))
    {
      var node := oldNodes[n];
      ghost var rest := SplitDelimited(oldNodes[n + 1..], delimiter, textType);
      SplitDelimitedUnfold(oldNodes, n, delimiter, textType);
      if node.textType != PlainText {
        PrependAppend(newNodes, [node], rest);
        newNodes := newNodes + [node];
        continue;
      }
      if node.text == "" {
        PrependAppend(newNodes, [], rest);
        assert newNodes + [] == newNodes;
        continue;
      }
      var parts := Split(node.text, delimiter);
      if |parts| % 2 == 0 {
        return Failure(UnclosedMessage(delimiter, node.text));
      }
      assert SplitDelimitedNode(node, delimiter, textType) == Success(TagParts(parts, 0, textType));
      PrependAppend(newNodes, TagParts(parts, 0, textType), rest);
      newNodes := AppendParts(newNodes, parts, textType);
    }
    assert oldNodes[|oldNodes|..] == [] && newNodes + [] == newNodes;
    return Success(newNodes);
  }

  /** The inner loop of `split_nodes_delimiter`: appends a run for each non-empty part,
      plain at even indices and of the delimited kind at odd ones. */
  method AppendParts(newNodes: seq<TextNode>, parts: seq<string>, textType: TextType)
    returns (out: seq<TextNode>)
    ensures out == newNodes + TagParts(parts, 0, textType)
  {
    out := newNodes;
    assert parts[0..] == parts;
    for i := 0 to |parts|
      invariant newNodes + TagParts(parts, 0, textType) == out + TagParts(parts, i, textType)
    {
      var tagged := TagPart(parts[i], i, textType);
      ghost var rest := TagParts(parts, i + 1, textType);
      assert TagParts(parts, i, textType) == tagged + rest;
      assert out + (tagged + rest) == (out + tagged) + rest;
      if parts[i] == "" {
        assert tagged == [] && out + [] == out;
        continue;
      }
      if i % 2 == 0 {
        out := out + [Run(parts[i], PlainText)];
      } else {
        out := out + [Run(parts[i], textType)];
      }
    }
    assert out + [] == out;
  }

  /** The texts of a list of runs, concatenated. */
  function Texts(nodes: seq<TextNode>): string
    decreases |nodes|
  {
    if |nodes| == 0 then "" else nodes[0].text + Texts(nodes[1..])
  }

  lemma {:induction false} TextsOfTagParts(parts: seq<string>, i: nat, textType: TextType)
    requires i <= |parts|
    ensures Texts(TagParts(parts, i, textType)) == Concat(parts[i..])
    decreases |parts| - i
  {
    if i < |parts| {
      TextsOfTagParts(parts, i + 1, textType);
      TextsAppend(TagPart(parts[i], i, textType), TagParts(parts, i + 1, textType));
      assert parts[i..][1..] == parts[i + 1..];
    }
  }

  lemma {:induction false} TextsAppend(a: seq<TextNode>, b: seq<TextNode>)
    ensures Texts(a + b) == Texts(a) + Texts(b)
    decreases |a|
  {
    if |a| == 0 {
      assert a + b == b;
    } else {
      assert (a + b)[1..] == a[1..] + b;
      TextsAppend(a[1..], b);
    }
  }

  /** One plain, non-empty run: the split fails exactly when the run holds an odd number
      of delimiters, and then with the message naming the delimiter and the run's text. */
  lemma {:induction false} SplitDelimitedNodeFails(node: TextNode, delimiter: string, textType: TextType)
    requires |delimiter| > 0 && node.textType == PlainText && node.text != ""
    ensures SplitDelimitedNode(node, delimiter, textType).Failure?
            <==> Occurrences(node.text, delimiter) % 2 == 1
    ensures SplitDelimitedNode(node, delimiter, textType).Failure?
            ==> SplitDelimitedNode(node, delimiter, textType).error == UnclosedMessage(delimiter, node.text)
  {
    var parts := Split(node.text, delimiter);
    assert SplitDelimitedNode(node, delimiter, textType).Failure? <==> |parts| % 2 == 0;
    SplitCounts(node.text, delimiter);
    OddAfterEven(|parts|, Occurrences(node.text, delimiter));
  }

  /** One more than an odd count is even, and one more than an even count is odd. */
  lemma {:induction false} OddAfterEven(x: nat, y: nat)
    requires x == y + 1
    ensures x % 2 == 0 <==> y % 2 == 1
  {
  }

  /** When it succeeds on a plain, non-empty run, the runs it makes spell the run's text
      with every delimiter deleted, and none of them is empty. */
  lemma {:induction false} SplitDelimitedNodeText(node: TextNode, delimiter: string, textType: TextType)
    requires |delimiter| > 0 && node.textType == PlainText && node.text != ""
    requires SplitDelimitedNode(node, delimiter, textType).Success?
    ensures Texts(SplitDelimitedNode(node, delimiter, textType).value) == RemoveAll(node.text, delimiter)
    ensures var out := SplitDelimitedNode(node, delimiter, textType).value;
            forall k :: 0 <= k < |out| ==> out[k].text != ""
  {
    var parts := Split(node.text, delimiter);
    SplitCounts(node.text, delimiter);
    TextsOfTagParts(parts, 0, textType);
    TagPartsShape(parts, 0, textType);
    assert parts[0..] == parts;
  }

  /** Any one run fails exactly when it is unclosed, and then with its own message. */
  lemma {:induction false} SplitDelimitedNodeError(node: TextNode, delimiter: string, textType: TextType)
    requires |delimiter| > 0
    ensures SplitDelimitedNode(node, delimiter, textType).Failure? <==> Unclosed(node, delimiter)
    ensures SplitDelimitedNode(node, delimiter, textType).Failure?
            ==> SplitDelimitedNode(node, delimiter, textType).error == UnclosedMessage(delimiter, node.text)
  {
    if node.textType == PlainText && node.text != "" {
      SplitDelimitedNodeFails(node, delimiter, textType);
    }
  }

  /** The whole list fails exactly when some run is unclosed. */
  lemma {:induction false} SplitDelimitedFailure(nodes: seq<TextNode>, delimiter: string, textType: TextType)
    requires |delimiter| > 0
    ensures SplitDelimited(nodes, delimiter, textType).Failure?
            <==> exists i :: 0 <= i < |nodes| && Unclosed(nodes[i], delimiter)
    decreases |nodes|
  {
    if |nodes| > 0 {
      SplitDelimitedNodeError(nodes[0], delimiter, textType);
      SplitDelimitedFailure(nodes[1..], delimiter, textType);
      if SplitDelimited(nodes, delimiter, textType).Failure? && !Unclosed(nodes[0], delimiter) {
        var i :| 0 <= i < |nodes[1..]| && Unclosed(nodes[1..][i], delimiter);
        assert nodes[1..][i] == nodes[i + 1];
      }
      if !Unclosed(nodes[0], delimiter) && exists i :: 0 <= i < |nodes| && Unclosed(nodes[i], delimiter) {
        var i :| 0 <= i < |nodes| && Unclosed(nodes[i], delimiter);
        assert nodes[1..][i - 1] == nodes[i];
      }
    }
  }

  /** The error is the message of the first unclosed run. */
  lemma {:induction false} FirstUnclosedError(nodes: seq<TextNode>, delimiter: string, textType: TextType, j: nat)
    requires |delimiter| > 0 && j < |nodes| && Unclosed(nodes[j], delimiter)
    requires forall i :: 0 <= i < j ==> !Unclosed(nodes[i], delimiter)
    ensures SplitDelimited(nodes, delimiter, textType) == Failure(UnclosedMessage(delimiter, nodes[j].text))
    decreases j
  {
    SplitDelimitedNodeError(nodes[0], delimiter, textType);
    if j > 0 {
      forall i | 0 <= i < j - 1 ensures !Unclosed(nodes[1..][i], delimiter) {
        assert nodes[1..][i] == nodes[i + 1];
      }
      assert nodes[1..][j - 1] == nodes[j];
      FirstUnclosedError(nodes[1..], delimiter, textType, j - 1);
    }
  }

  /** Runs that are already styled pass through unchanged and in order. */
  lemma {:induction false} SplitDelimitedKeepsStyled(nodes: seq<TextNode>, delimiter: string, textType: TextType)
    requires |delimiter| > 0
    requires forall i :: 0 <= i < |nodes| ==> nodes[i].textType != PlainText
    ensures SplitDelimited(nodes, delimiter, textType) == Success(nodes)
    decreases |nodes|
  {
    if |nodes| > 0 {
      SplitDelimitedKeepsStyled(nodes[1..], delimiter, textType);
      assert [nodes[0]] + nodes[1..] == nodes;
    }
  }

  /** Empty plain runs are dropped: they contribute nothing to the result. */
  lemma {:induction false} EmptyPlainDropped(nodes: seq<TextNode>, delimiter: string, textType: TextType)
    requires |delimiter| > 0 && |nodes| > 0
    requires nodes[0].textType == PlainText && nodes[0].text == ""
    ensures SplitDelimited(nodes, delimiter, textType) == SplitDelimited(nodes[1..], delimiter, textType)
  {
    var rest := SplitDelimited(nodes[1..], delimiter, textType);
    if rest.Success? {
      assert [] + rest.value == rest.value;
    }
  }

  /** No plain run in a successful result is empty. */
  lemma {:induction false} SplitDelimitedPlainNonEmpty(nodes: seq<TextNode>, delimiter: string, textType: TextType)
    requires |delimiter| > 0
    requires SplitDelimited(nodes, delimiter, textType).Success?
    ensures var out := SplitDelimited(nodes, delimiter, textType).value;
            forall k :: 0 <= k < |out| && out[k].textType == PlainText ==> out[k].text != ""
    decreases |nodes|
  {
    if |nodes| > 0 {
      SplitDelimitedPlainNonEmpty(nodes[1..], delimiter, textType);
      var head := SplitDelimitedNode(nodes[0], delimiter, textType).value;
      var tail := SplitDelimited(nodes[1..], delimiter, textType).value;
      if nodes[0].textType == PlainText && nodes[0].text != "" {
        TagPartsShape(Split(nodes[0].text, delimiter), 0, textType);
        assert head == TagParts(Split(nodes[0].text, delimiter), 0, textType);
      }
      var out := SplitDelimited(nodes, delimiter, textType).value;
      assert out == head + tail;
      forall k | 0 <= k < |out| && out[k].textType == PlainText ensures out[k].text != "" {
        if k < |head| {
          assert out[k] == head[k];
        } else {
          assert out[k] == tail[k - |head|];
        }
      }
    }
  }

  // ---------------------------------------------------------------------------
  // split_nodes_image and split_nodes_link
  // ---------------------------------------------------------------------------

  /** The kind of run a pattern's matches become. */
  function KindOf(pat: Pattern): TextType {
    match pat
    case ImagePattern => Image
    case LinkPattern => Link
  }

  /** A plain run for a non-empty stretch of text, nothing for an empty one. */
  function PlainRun(text: string): seq<TextNode> {
    if text == "" then [] else [Run(text, PlainText)]
  }

  /** The runs for `s[last..]` given its matches: the text before each match as a plain
      run, the match itself as an image or link run, and the text after the last match. */
  function Emit(s: string, last: nat, ms: seq<Match>, pat: Pattern): seq<TextNode>
    requires last <= |s| && InOrder(s, last, ms)
    decreases |ms|
  {
    if |ms| == 0 then PlainRun(s[last..])
    else
      PlainRun(s[last..ms[0].start])
      + [TextNode(ms[0].text, KindOf(pat), Some(ms[0].url))]
      + Emit(s, ms[0].end, ms[1..], pat)
  }

  /** What the image or link splitter makes of one run. */
  function SplitMatchesNode(node: TextNode, pat: Pattern): seq<TextNode> {
    if node.textType != PlainText then [node]
    else if node.text == "" then []
    else
      var ms := FindAll(node.text, 0, pat);
      if |ms| == 0 then [node] else Emit(node.text, 0, ms, pat)
  }

  /** What the image or link splitter makes of a list of runs. */
  function SplitMatches(nodes: seq<TextNode>, pat: Pattern): seq<TextNode>
    decreases |nodes|
  {
    if |nodes| == 0 then [] else SplitMatchesNode(nodes[0], pat) + SplitMatches(nodes[1..], pat)
  }

  /** The loop shared by `split_nodes_image` and `split_nodes_link`, which differ only
      in their pattern. */
  method SplitNodesMatching(oldNodes: seq<TextNode>, pat: Pattern) returns (newNodes: seq<TextNode>)
    ensures newNodes == SplitMatches(oldNodes, pat)
  {
    newNodes := [];
    assert oldNodes[0..] == oldNodes;
    for n := 0 to |oldNodes|
      invariant SplitMatches(oldNodes, pat) == newNodes + SplitMatches(oldNodes[n..], pat)
    {
      var node := oldNodes[n];
      assert oldNodes[n..][0] == node && oldNodes[n..][1..] == oldNodes[n + 1..];
      ghost var rest := SplitMatches(oldNodes[n + 1..], pat);
      assert SplitMatches(oldNodes[n..], pat) == SplitMatchesNode(node, pat) + rest;
      AppendAssoc(newNodes, SplitMatchesNode(node, pat), rest);
      if node.textType != PlainText {
        newNodes := newNodes + [node];
        continue;
      }
      var text := node.text;
      if text == "" {
        assert newNodes + [] == newNodes;
        continue;
      }
      var matches := FindAll(text, 0, pat);
      if |matches| == 0 {
        newNodes := newNodes + [node];
        continue;
      }
      newNodes := AppendMatches(newNodes, text, matches, pat);
    }
    assert oldNodes[|oldNodes|..] == [] && newNodes + [] == newNodes;
  }

  /** One step of the inner loop: after the runs made so far come the text before the
      next match (when not empty), the match, and the runs for the rest. */
  lemma {:induction false} EmitStep(text: string, last: nat, ms: seq<Match>, pat: Pattern, acc: seq<TextNode>)
    requires last <= |text| && InOrder(text, last, ms) && |ms| > 0
    ensures var segment := text[last..ms[0].start];
            var found := TextNode(ms[0].text, KindOf(pat), Some(ms[0].url));
            acc + Emit(text, last, ms, pat)
            == (if segment != "" then acc + [Run(segment, PlainText)] else acc) + [found]
               + Emit(text, ms[0].end, ms[1..], pat)
  {
    var segment := text[last..ms[0].start];
    var found := TextNode(ms[0].text, KindOf(pat), Some(ms[0].url));
    var tail := Emit(text, ms[0].end, ms[1..], pat);
    assert Emit(text, last, ms, pat) == PlainRun(segment) + [found] + tail;
    assert acc + (PlainRun(segment) + [found] + tail) == acc + PlainRun(segment) + [found] + tail;
    if segment == "" {
      assert acc + PlainRun(segment) == acc;
    }
  }

  /** The last step: the text after the last match, when not empty. */
  lemma {:induction false} EmitEnd(text: string, last: nat, pat: Pattern, acc: seq<TextNode>)
    requires last <= |text|
    ensures var remaining := text[last..];
            acc + Emit(text, last, [], pat)
            == if remaining != "" then acc + [Run(remaining, PlainText)] else acc
  {
    if text[last..] == "" {
      assert acc + [] == acc;
    }
  }

  /** The inner loop of the image and link splitters: appends the text before each match
      as a plain run, the match as an image or link run, then the text after the last
      match. */
  method AppendMatches(newNodes: seq<TextNode>, text: string, matches: seq<Match>, pat: Pattern)
    returns (out: seq<TextNode>)
    requires InOrder(text, 0, matches)
    ensures out == newNodes + Emit(text, 0, matches, pat)
  {
    out := newNodes;
    var lastIdx: nat := 0;
    assert matches[0..] == matches;
    for j := 0 to |matches|
      invariant lastIdx <= |text| && InOrder(text, lastIdx, matches[j..])
      invariant newNodes + Emit(text, 0, matches, pat) == out + Emit(text, lastIdx, matches[j..], pat)
    {
      var m := matches[j];
      assert matches[j..][0] == m && matches[j..][1..] == matches[j + 1..];
      EmitStep(text, lastIdx, matches[j..], pat, out);
      var segment := text[lastIdx..m.start];
      if segment != "" {
        out := out + [Run(segment, PlainText)];
      }
      out := out + [TextNode(m.text, KindOf(pat), Some(m.url))];
      lastIdx := m.end;
    }
    assert matches[|matches|..] == [];
    EmitEnd(text, lastIdx, pat, out);
    var remaining := text[lastIdx..];
    if remaining != "" {
      out := out + [Run(remaining, PlainText)];
    }
  }

  /** `split_nodes_image`. */
  method SplitNodesImage(oldNodes: seq<TextNode>) returns (newNodes: seq<TextNode>)
    ensures newNodes == SplitMatches(oldNodes, ImagePattern)
  {
    newNodes := SplitNodesMatching(oldNodes, ImagePattern);
  }

  /** `split_nodes_link`. */
  method SplitNodesLink(oldNodes: seq<TextNode>) returns (newNodes: seq<TextNode>)
    ensures newNodes == SplitMatches(oldNodes, LinkPattern)
  {
    newNodes := SplitNodesMatching(oldNodes, LinkPattern);
  }

  /** A run written back as Markdown: images and links in their bracket syntax, any
      other run as its bare text. */
  function Markup(n: TextNode): string {
    var url := match n.url case Some(u) => u case None => "";
    match n.textType
    case Image => Render(ImagePattern, n.text, url)
    case Link => Render(LinkPattern, n.text, url)
    case _ => n.text
  }

  function MarkupAll(nodes: seq<TextNode>): string
    decreases |nodes|
  {
    if |nodes| == 0 then "" else Markup(nodes[0]) + MarkupAll(nodes[1..])
  }

  lemma {:induction false} MarkupAllAppend(a: seq<TextNode>, b: seq<TextNode>)
    ensures MarkupAll(a + b) == MarkupAll(a) + MarkupAll(b)
    decreases |a|
  {
    if |a| == 0 {
      assert a + b == b;
    } else {
      assert (a + b)[1..] == a[1..] + b;
      MarkupAllAppend(a[1..], b);
    }
  }

  /** Regrouping the runs made so far, the next run's output and the rest. */
  lemma {:induction false} AppendAssoc(a: seq<TextNode>, b: seq<TextNode>, c: seq<TextNode>)
    ensures a + (b + c) == (a + b) + c
  {
  }

  /** The runs `Emit` produces, written back as Markdown, spell `s[last..]` again. */
  lemma {:induction false} EmitRoundTrip(s: string, last: nat, ms: seq<Match>, pat: Pattern)
    requires last <= |s| && InOrder(s, last, ms)
    requires forall i :: 0 <= i < |ms| ==> MatchAt(s, ms[i].start, pat) == Some(ms[i])
    ensures MarkupAll(Emit(s, last, ms, pat)) == s[last..]
    decreases |ms|
  {
    if |ms| == 0 {
      PlainRunMarkup(s[last..]);
    } else {
      var m := ms[0];
      var head := PlainRun(s[last..m.start]);
      var found := [TextNode(m.text, KindOf(pat), Some(m.url))];
      var tail := Emit(s, m.end, ms[1..], pat);
      assert Emit(s, last, ms, pat) == head + found + tail;
      PlainRunMarkup(s[last..m.start]);
      MatchMarkup(s, m, pat);
      forall i | 0 <= i < |ms[1..]| ensures MatchAt(s, ms[1..][i].start, pat) == Some(ms[1..][i]) {
        assert ms[1..][i] == ms[i + 1];
      }
      EmitRoundTrip(s, m.end, ms[1..], pat);
      MarkupAllAppend(head + found, tail);
      MarkupAllAppend(head, found);
      SliceInThree(s, last, m.start, m.end);
    }
  }

  /** A suffix cut at two points is the three pieces in order. */
  lemma {:induction false} SliceInThree(s: string, a: nat, b: nat, c: nat)
    requires a <= b <= c <= |s|
    ensures s[a..] == s[a..b] + s[b..c] + s[c..]
  {
  }

  lemma {:induction false} PlainRunMarkup(t: string)
    ensures MarkupAll(PlainRun(t)) == t
  {
    if t != "" {
      assert [Run(t, PlainText)][1..] == [];
    }
  }

  /** A match written back as Markdown is the text it spans. */
  lemma {:induction false} MatchMarkup(s: string, m: Match, pat: Pattern)
    requires MatchAt(s, m.start, pat) == Some(m)
    ensures MarkupAll([TextNode(m.text, KindOf(pat), Some(m.url))]) == s[m.start..m.end]
  {
    assert [TextNode(m.text, KindOf(pat), Some(m.url))][1..] == [];
  }

  /** Writing the result back as Markdown rebuilds the input: every image or link run
      re-rendered as `![a](u)` or `[a](u)` and every gap as its text. */
  lemma {:induction false} SplitMatchesRoundTrip(nodes: seq<TextNode>, pat: Pattern)
    ensures MarkupAll(SplitMatches(nodes, pat)) == MarkupAll(nodes)
    decreases |nodes|
  {
    if |nodes| > 0 {
      var node := nodes[0];
      SplitMatchesRoundTrip(nodes[1..], pat);
      MarkupAllAppend(SplitMatchesNode(node, pat), SplitMatches(nodes[1..], pat));
      if node.textType == PlainText && node.text != "" {
        var ms := FindAll(node.text, 0, pat);
        if |ms| > 0 {
          EmitRoundTrip(node.text, 0, ms, pat);
          assert node.text[0..] == node.text;
        }
      }
    }
  }

  /** A plain run with no match, and any run that is not plain, passes through unchanged. */
  lemma {:induction false} NoMatchPassesThrough(node: TextNode, pat: Pattern)
    requires node.textType != PlainText || (node.text != "" && FindAll(node.text, 0, pat) == [])
    ensures SplitMatches([node], pat) == [node]
  {
  }

  /** The (text, URL) pairs of the runs of one kind, in order. */
  function Targets(nodes: seq<TextNode>, kind: TextType): seq<(string, string)>
    decreases |nodes|
  {
    if |nodes| == 0 then []
    else
      var n := nodes[0];
      (if n.textType == kind then [(n.text, match n.url case Some(u) => u case None => "")] else [])
      + Targets(nodes[1..], kind)
  }

  lemma {:induction false} TargetsAppend(a: seq<TextNode>, b: seq<TextNode>, kind: TextType)
    ensures Targets(a + b, kind) == Targets(a, kind) + Targets(b, kind)
    decreases |a|
  {
    if |a| == 0 {
      assert a + b == b;
    } else {
      assert (a + b)[1..] == a[1..] + b;
      TargetsAppend(a[1..], b, kind);
    }
  }

  lemma {:induction false} TargetsOfEmit(s: string, last: nat, ms: seq<Match>, pat: Pattern)
    requires last <= |s| && InOrder(s, last, ms)
    ensures Targets(Emit(s, last, ms, pat), KindOf(pat)) == Groups(ms)
    decreases |ms|
  {
    if |ms| > 0 {
      var m := ms[0];
      var image := [TextNode(m.text, KindOf(pat), Some(m.url))];
      TargetsOfEmit(s, m.end, ms[1..], pat);
      TargetsAppend(PlainRun(s[last..m.start]) + image, Emit(s, m.end, ms[1..], pat), KindOf(pat));
      TargetsAppend(PlainRun(s[last..m.start]), image, KindOf(pat));
      assert Targets(PlainRun(s[last..m.start]), KindOf(pat)) == [];
      assert Targets(image, KindOf(pat)) == [(m.text, m.url)] + Targets([], KindOf(pat));
      GroupsUnfold(ms);
    }
  }

  /** The extractors report exactly the (text, URL) pairs of the image and link runs the
      splitters make of the same text, because both use the same pattern. */
  lemma {:induction false} ExtractorsAgreeWithSplitters(text: string)
    ensures Targets(SplitMatches([Run(text, PlainText)], ImagePattern), Image) == ExtractMarkdownImages(text)
    ensures Targets(SplitMatches([Run(text, PlainText)], LinkPattern), Link) == ExtractMarkdownLinks(text)
  {
    var node := Run(text, PlainText);
    assert SplitMatches([node], ImagePattern) == SplitMatchesNode(node, ImagePattern);
    assert SplitMatches([node], LinkPattern) == SplitMatchesNode(node, LinkPattern);
    TargetsOfEmit(text, 0, FindAll(text, 0, ImagePattern), ImagePattern);
    TargetsOfEmit(text, 0, FindAll(text, 0, LinkPattern), LinkPattern);
  }

  // ---------------------------------------------------------------------------
  // text_to_textnodes
  // ---------------------------------------------------------------------------

  /** What `text_to_textnodes` returns: code spans, then images, then links, then bold,
      then italic, applied to the text as one plain run. */
  function InlineRuns(text: string): Result<seq<TextNode>> {
    var code :- SplitDelimited([Run(text, PlainText)], "`", Code);
    var images := SplitMatches(code, ImagePattern);
    var links := SplitMatches(images, LinkPattern);
    var bold :- SplitDelimited(links, "**", Bold);
    SplitDelimited(bold, "_", Italic)
  }

  /** `text_to_textnodes`: the five splitter calls in their fixed order. */
  method TextToTextNodes(text: string) returns (r: Result<seq<TextNode>>)
    ensures r == InlineRuns(text)
  {
    var nodes := [Run(text, PlainText)];
    nodes :- SplitNodesDelimiter(nodes, "`", Code);
    nodes := SplitNodesImage(nodes);
    nodes := SplitNodesLink(nodes);
    nodes :- SplitNodesDelimiter(nodes, "**", Bold);
    r := SplitNodesDelimiter(nodes, "_", Italic);
  }

  /** The empty text yields no runs. */
  lemma {:induction false} TextToTextNodesEmpty()
    ensures InlineRuns("") == Success([])
  {
    var nodes := [Run("", PlainText)];
    EmptyPlainDropped(nodes, "`", Code);
    assert nodes[1..] == [];
  }

  /** A run whose text does not hold the delimiter comes back unchanged. */
  lemma {:induction false} NoDelimiterKeepsRun(text: string, delimiter: string, textType: TextType)
    requires |delimiter| > 0 && text != ""
    requires IndexOf(text, delimiter).None?
    ensures SplitDelimited([Run(text, PlainText)], delimiter, textType) == Success([Run(text, PlainText)])
  {
    var node := Run(text, PlainText);
    assert Split(text, delimiter) == [text];
    assert TagParts([text], 1, textType) == [];
    assert TagParts([text], 0, textType) == [node];
    assert SplitDelimitedNode(node, delimiter, textType) == Success([node]);
    assert [node][1..] == [];
    assert [node] + [] == [node];
  }

  lemma {:induction false} NoCharNoOccurrence(text: string, c: char)
    requires forall k :: 0 <= k < |text| ==> text[k] != c
    ensures IndexOf(text, [c]).None?
  {
    forall k | 0 <= k && k + 1 <= |text| ensures !OccursAt(text, [c], k) {
      assert text[k..k + 1][0] == text[k];
    }
  }

  /** Text without any inline markup character yields a single plain run. */
  lemma {:induction false} TextToTextNodesPlain(text: string)
    requires text != ""
    requires forall k :: 0 <= k < |text| ==> text[k] !in "`*_["
    ensures InlineRuns(text) == Success([Run(text, PlainText)])
  {
    var node := Run(text, PlainText);
    NoCharNoOccurrence(text, '`');
    NoDelimiterKeepsRun(text, "`", Code);
    assert FindAll(text, 0, ImagePattern) == [] by {
      forall p: nat ensures MatchAt(text, p, ImagePattern).None? {
        if p + 1 < |text| { assert text[p + 1] != '['; }
      }
    }
    assert FindAll(text, 0, LinkPattern) == [];
    assert SplitMatches([node], ImagePattern) == [node];
    assert SplitMatches([node], LinkPattern) == [node];
    NoCharNoOccurrence(text, '*');
    forall k | 0 <= k && k + 2 <= |text| ensures !OccursAt(text, "**", k) {
      assert text[k..k + 2][0] == text[k];
    }
    NoDelimiterKeepsRun(text, "**", Bold);
    NoCharNoOccurrence(text, '_');
    NoDelimiterKeepsRun(text, "_", Italic);
  }

  /** An odd number of backticks fails the whole parse with the code delimiter's error,
      naming the text. */
  lemma {:induction false} TextToTextNodesUnclosedCode(text: string)
    requires Occurrences(text, "`") % 2 == 1
    ensures InlineRuns(text) == Failure(UnclosedMessage("`", text))
  {
    var node := Run(text, PlainText);
    assert text != "";
    SplitDelimitedNodeFails(node, "`", Code);
  }

  /** No plain run in a successful parse is empty (the last pass drops them all). */
  lemma {:induction false} TextToTextNodesNoEmptyPlain(text: string)
    requires InlineRuns(text).Success?
    ensures var runs := InlineRuns(text).value;
            forall k :: 0 <= k < |runs| && runs[k].textType == PlainText ==> runs[k].text != ""
  {
    var code := SplitDelimited([Run(text, PlainText)], "`", Code).value;
    var links := SplitMatches(SplitMatches(code, ImagePattern), LinkPattern);
    var bold := SplitDelimited(links, "**", Bold).value;
    SplitDelimitedPlainNonEmpty(bold, "_", Italic);
  }
}
