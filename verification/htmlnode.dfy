/** HTML nodes: the generic node with its attribute serialiser, and the tree the
    block builder produces. */
module HtmlNodes {
  import opened Wrappers
  import opened PyStr
  import opened TextNodes

  /** Attributes in the order the mapping yields them. */
  type Props = seq<(string, string)>

  /** The generic HTML node; every field is optional, as the constructor's defaults are. */
  datatype HtmlNode = HtmlNode(
    tag: Option<string>,
    value: Option<string>,
    children: Option<seq<HtmlNode>>,
    props: Option<Props>)

  /** The node tree the Markdown builder assembles: a tagged leaf holding text, a tagged
      parent holding an ordered sequence of children, or a styled inline run, which
      stands for the leaf the run would be converted to. */
  datatype HtmlTree =
    | Leaf(leafTag: Option<string>, value: string)
    | Parent(tag: string, children: seq<HtmlTree>)
    | InlineRun(run: TextNode)

  const NotImplementedMessage := "to_html method not implemented"

  /** The base node's `to_html`: it renders nothing and always raises. */
  function ToHtml(node: HtmlNode): (r: Result<string>)
    ensures r.Failure? && r.error == NotImplementedMessage
  {
    Failure(NotImplementedMessage)
  }

  /** One attribute as `key="value"`. */
  function Attribute(p: (string, string)): string {
    p.0 + "=\"" + p.1 + "\""
  }

  /** Every attribute preceded by one space: ` k1="v1" k2="v2"`. */
  function SpacedAttributes(ps: Props): string
    decreases |ps|
  {
    if |ps| == 0 then "" else " " + Attribute(ps[0]) + SpacedAttributes(ps[1..])
  }

  /** What `props_to_html` promises: no attributes at all, or an empty mapping, gives
      the empty string; otherwise each attribute in order, each preceded by a space. */
  function AttributeString(props: Option<Props>): string {
    match props
    case None => ""
    case Some(ps) => SpacedAttributes(ps)
  }

  /** `props_to_html`: collects `key="value"` for each attribute in a loop, then joins
      them with single spaces behind one leading space. */
  method PropsToHtml(node: HtmlNode) returns (s: string)
    ensures s == AttributeString(node.props)
    ensures s == "" || s[0] == ' '
  {
    if node.props.None? {
      return "";
    }
    var ps := node.props.value;
    var attributes: seq<string> := [];
    for i := 0 to |ps|
      invariant |attributes| == i
      invariant forall k :: 0 <= k < i ==> attributes[k] == Attribute(ps[k])
    {
      attributes := attributes + [Attribute(ps[i])];
    }
    if |attributes| > 0 {
      JoinIsSpaced(ps, attributes);
      s := " " + JoinWith(attributes, " ");
    } else {
      s := "";
    }
  }

  /** Joining the attributes with single spaces behind a leading space is the same as
      putting a space before each of them. */
  lemma {:induction false} JoinIsSpaced(ps: Props, attributes: seq<string>)
    requires |ps| > 0 && |attributes| == |ps|
    requires forall k :: 0 <= k < |ps| ==> attributes[k] == Attribute(ps[k])
    ensures " " + JoinWith(attributes, " ") == SpacedAttributes(ps)
    decreases |ps|
  {
    if |ps| > 1 {
      JoinIsSpaced(ps[1..], attributes[1..]);
    }
  }

  lemma {:induction false} SpacedAttributesAppend(a: Props, b: Props)
    ensures SpacedAttributes(a + b) == SpacedAttributes(a) + SpacedAttributes(b)
    decreases |a|
  {
    if |a| == 0 {
      assert a + b == b;
    } else {
      assert (a + b)[1..] == a[1..] + b;
      SpacedAttributesAppend(a[1..], b);
    }
  }

  /** A single attribute `k -> v` serialises to exactly ` k="v"`. */
  lemma {:induction false} SingleAttribute(k: string, v: string)
    ensures AttributeString(Some([(k, v)])) == " " + k + "=\"" + v + "\""
  {
    assert SpacedAttributes([(k, v)][1..]) == "";
  }

  /** Every attribute appears in the output as ` key="value"`, at the offset where the
      attributes before it end. */
  lemma {:induction false} AttributeOccurs(ps: Props, i: nat)
    requires i < |ps|
    ensures var at := |SpacedAttributes(ps[..i])|;
            var item := " " + Attribute(ps[i]);
            at + |item| <= |SpacedAttributes(ps)| &&
            SpacedAttributes(ps)[at..at + |item|] == item
  {
    assert ps == ps[..i] + ps[i..];
    SpacedAttributesAppend(ps[..i], ps[i..]);
    assert ps[i..][1..] == ps[i + 1..];
  }
}
