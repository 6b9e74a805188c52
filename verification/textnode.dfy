/** Styled text runs: the values the inline splitters produce and consume. */
module TextNodes {
  import opened Wrappers

  /** The kinds a run of text can have. The first seven are the members the source's
      enumeration declares; Bold, Italic, Link and Image are the kinds the inline
      pipeline and its tests use. */
  datatype TextType =
    | PlainText
    | Markdown
    | WordDocument
    | PowerpointPresentationX
    | PowerpointPresentation
    | PdfDocument
    | Code
    | Bold
    | Italic
    | Link
    | Image

  /** A run of text with its kind and, for links and images, its target URL. */
  datatype TextNode = TextNode(text: string, textType: TextType, url: Option<string>)

  /** A run built without a URL: the constructor's `url=None` default. */
  function Run(text: string, textType: TextType): (n: TextNode)
    ensures n.url.None?
    ensures n.text == text && n.textType == textType
  {
    TextNode(text, textType, None)
  }

  /** `TextNode.__eq__`: field-by-field comparison of text, kind and URL. It agrees
      with equality of the values, so two runs are equal exactly when they agree on
      all three fields, and runs that differ in any one field (a URL against no URL
      included) are unequal. */
  function Equals(a: TextNode, b: TextNode): (r: bool)
    ensures r <==> a == b
    ensures a.text != b.text || a.textType != b.textType || a.url != b.url ==> !r
  {
    a.text == b.text && a.textType == b.textType && a.url == b.url
  }
}
