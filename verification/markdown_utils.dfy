/** The two fixed regular expressions of the inline parser, as hand-written matchers:
      image  `!\[(.*?)\]\((.*?)\)`
      link   `(?<!!)\[(.*?)\]\((.*?)\)`
    Both groups are lazy and `.` matches anything but a line break, so a match at `p`
    takes the first `](` after the opening that lies on the same line, then the first
    `)` after it on the same line. A later `](` can never succeed where the first one
    failed (MatchAtIsLeastRegexMatch proves the scan finds the match the regex engine
    prefers), and the search for the next match resumes where the last one ended. */
module MarkdownUtils {
  import opened Wrappers
  import opened PyStr

  datatype Pattern = ImagePattern | LinkPattern

  /** One match: where it starts, the two captured groups, and where it ends (exclusive). */
  datatype Match = Match(start: nat, text: string, url: string, end: nat)

  /** No line break in `s[i..j]`. */
  predicate OnOneLine(s: string, i: nat, j: nat)
    requires i <= j <= |s|
  {
    forall k :: i <= k < j ==> s[k] != '\n'
  }

  /** The pattern's opening at `p`: `![` for images; for links a `[` that is not
      preceded by `!` (the negative look-behind). */
  predicate Opens(s: string, p: nat, pat: Pattern) {
    match pat
    case ImagePattern => p + 1 < |s| && s[p] == '!' && s[p + 1] == '['
    case LinkPattern => p < |s| && s[p] == '[' && (p == 0 || s[p - 1] != '!')
  }

  /** Where the first group starts, just after the opening. */
  function GroupStart(p: nat, pat: Pattern): nat {
    match pat
    case ImagePattern => p + 2
    case LinkPattern => p + 1
  }

  predicate BracketParenAt(s: string, k: int) {
    0 <= k && k + 1 < |s| && s[k] == ']' && s[k + 1] == '('
  }

  /** The text a match spans, rebuilt from its two groups. */
  function Render(pat: Pattern, text: string, url: string): string {
    (match pat case ImagePattern => "![" case LinkPattern => "[") + text + "](" + url + ")"
  }

  /** The declarative reading of the pattern: it matches at `p` with the first group
      ending at `q` (where `](` stands) and the second ending at `r` (where `)` stands),
      neither group crossing a line break. */
  predicate IsMatch(s: string, p: nat, q: nat, r: nat, pat: Pattern) {
    && Opens(s, p, pat)
    && GroupStart(p, pat) <= q
    && BracketParenAt(s, q)
    && OnOneLine(s, GroupStart(p, pat), q)
    && q + 2 <= r < |s|
    && s[r] == ')'
    && OnOneLine(s, q + 2, r)
  }

  /** The first `](` at or after `i`, provided no line break comes before it. */
  function FindGroupEnd(s: string, i: nat): (r: Option<nat>)
    ensures r.Some? ==> i <= r.value && BracketParenAt(s, r.value) && OnOneLine(s, i, r.value)
    ensures forall k :: i <= k && BracketParenAt(s, k) && OnOneLine(s, i, k) ==> r.Some? && r.value <= k
    decreases |s| - i
  {
    if i + 1 >= |s| then None
    else if s[i] == ']' && s[i + 1] == '(' then Some(i)
    else if s[i] == '\n' then None
    else FindGroupEnd(s, i + 1)
  }

  /** The first `)` at or after `j`, provided no line break comes before it. */
  function FindGroupClose(s: string, j: nat): (r: Option<nat>)
    ensures r.Some? ==> j <= r.value < |s| && s[r.value] == ')' && OnOneLine(s, j, r.value)
    ensures forall k :: j <= k < |s| && s[k] == ')' && OnOneLine(s, j, k) ==> r.Some? && r.value <= k
    decreases |s| - j
  {
    if j >= |s| then None
    else if s[j] == ')' then Some(j)
    else if s[j] == '\n' then None
    else FindGroupClose(s, j + 1)
  }

  /** The match the pattern makes when tried at position `p`, if any. */
  function MatchAt(s: string, p: nat, pat: Pattern): (m: Option<Match>)
    ensures m.Some? ==> Opens(s, p, pat) && m.value.start == p && p < m.value.end <= |s|
    ensures m.Some? ==> s[p..m.value.end] == Render(pat, m.value.text, m.value.url)
  {
    if !Opens(s, p, pat) then None
    else
      var a := GroupStart(p, pat);
      match FindGroupEnd(s, a)
      case None => None
      case Some(q) =>
        match FindGroupClose(s, q + 2)
        case None => None
        case Some(r) =>
          SpanRenders(s, p, q, r, pat);
          Some(Match(p, s[a..q], s[q + 2..r], r + 1))
  }

  /** The text from the opening to the closing `)` is the opening, group 1, `](`,
      group 2 and `)`. */
  lemma {:induction false} SpanRenders(s: string, p: nat, q: nat, r: nat, pat: Pattern)
    requires Opens(s, p, pat) && GroupStart(p, pat) <= q && BracketParenAt(s, q)
    requires q + 2 <= r < |s| && s[r] == ')'
    ensures s[p..r + 1] == Render(pat, s[GroupStart(p, pat)..q], s[q + 2..r])
  {
    var a := GroupStart(p, pat);
    SliceSplit(s, p, r, r + 1);
    SliceSplit(s, p, q + 2, r);
    SliceSplit(s, p, q, q + 2);
    SliceSplit(s, p, a, q);
    assert s[p..a] == (match pat case ImagePattern => "![" case LinkPattern => "[");
    assert s[q..q + 2] == "](";
    assert s[r..r + 1] == ")";
  }

  /** A match `MatchAt` reports is a match of the pattern, its groups the text between. */
  lemma {:induction false} MatchAtSound(s: string, p: nat, pat: Pattern)
    requires MatchAt(s, p, pat).Some?
    ensures var m := MatchAt(s, p, pat).value;
            var a := GroupStart(p, pat);
            var q := a + |m.text|;
            && IsMatch(s, p, q, m.end - 1, pat)
            && m.text == s[a..q] && m.url == s[q + 2..m.end - 1]
  {
  }

  /** Wherever the pattern matches at `p`, `MatchAt` reports a match, and its groups are
      no longer than those of that match: the first group shorter, or the same and the
      second one no longer. */
  lemma {:induction false} MatchAtLeast(s: string, p: nat, pat: Pattern, q': nat, r': nat)
    requires IsMatch(s, p, q', r', pat)
    ensures MatchAt(s, p, pat).Some?
    ensures var m := MatchAt(s, p, pat).value;
            var q := GroupStart(p, pat) + |m.text|;
            q < q' || (q == q' && m.end - 1 <= r')
  {
    var a := GroupStart(p, pat);
    var q := FindGroupEnd(s, a).value;
    assert q <= q';
    forall k | q + 2 <= k < r' ensures s[k] != '\n' {
      if k < q' {
        assert a <= k;
      } else if k >= q' + 2 {
        assert q' + 2 <= k < r';
      }
    }
    assert FindGroupClose(s, q + 2).Some?;
  }

  /** `MatchAt` finds a match exactly when the pattern matches at `p`, and the one it
      finds is the one the lazy groups prefer: the shortest first group, then the
      shortest second group. */
  lemma {:induction false} MatchAtIsLeastRegexMatch(s: string, p: nat, pat: Pattern)
    ensures MatchAt(s, p, pat).None? <==> forall q, r :: !IsMatch(s, p, q, r, pat)
    ensures MatchAt(s, p, pat).Some? ==>
      var m := MatchAt(s, p, pat).value;
      var a := GroupStart(p, pat);
      var q := a + |m.text|;
      && IsMatch(s, p, q, m.end - 1, pat)
      && m.text == s[a..q] && m.url == s[q + 2..m.end - 1]
      && forall q', r' :: IsMatch(s, p, q', r', pat) ==> q < q' || (q == q' && m.end - 1 <= r')
  {
    forall q': nat, r': nat | IsMatch(s, p, q', r', pat)
      ensures MatchAt(s, p, pat).Some?
      ensures var m := MatchAt(s, p, pat).value;
              var q := GroupStart(p, pat) + |m.text|;
              q < q' || (q == q' && m.end - 1 <= r')
    {
      MatchAtLeast(s, p, pat, q', r');
    }
    if MatchAt(s, p, pat).Some? {
      MatchAtSound(s, p, pat);
    }
  }

  /** The leftmost match that starts at or after `pos`. */
  function NextMatch(s: string, pos: nat, pat: Pattern): (m: Option<Match>)
    ensures m.Some? ==> pos <= m.value.start && MatchAt(s, m.value.start, pat) == m
    ensures m.Some? ==> forall p :: pos <= p < m.value.start ==> MatchAt(s, p, pat).None?
    ensures m.None? ==> forall p :: pos <= p ==> MatchAt(s, p, pat).None?
    decreases |s| - pos
  {
    if pos >= |s| then None
    else
      match MatchAt(s, pos, pat)
      case Some(m) => Some(m)
      case None => NextMatch(s, pos + 1, pat)
  }

  /** The matches lie left to right without overlapping, all inside `s[pos..]`. */
  predicate InOrder(s: string, pos: nat, ms: seq<Match>)
    decreases |ms|
  {
    |ms| == 0 || (pos <= ms[0].start < ms[0].end <= |s| && InOrder(s, ms[0].end, ms[1..]))
  }

  /** `re.finditer` from `pos`: the leftmost match, then again from where it ended.
      Each element is the match the pattern makes at its own start. */
  function FindAll(s: string, pos: nat, pat: Pattern): (ms: seq<Match>)
    requires pos <= |s|
    ensures InOrder(s, pos, ms)
    ensures forall i :: 0 <= i < |ms| ==> MatchAt(s, ms[i].start, pat) == Some(ms[i])
    decreases |s| - pos
  {
    match NextMatch(s, pos, pat)
    case None => []
    case Some(m) => [m] + FindAll(s, m.end, pat)
  }

  /** Position `p` lies strictly inside none of the matches. */
  predicate Uncovered(ms: seq<Match>, p: nat) {
    forall i :: 0 <= i < |ms| ==> !(ms[i].start < p < ms[i].end)
  }

  /** Every match lies at or after the position the list starts from, and is a non-empty
      span of the text. */
  lemma {:induction false} InOrderAfter(s: string, pos: nat, ms: seq<Match>, k: nat)
    requires InOrder(s, pos, ms) && k < |ms|
    ensures pos <= ms[k].start < ms[k].end <= |s|
    decreases |ms|
  {
    if k > 0 {
      InOrderAfter(s, ms[0].end, ms[1..], k - 1);
    }
  }

  /** An earlier match ends before a later one starts. */
  lemma {:induction false} InOrderSeparated(s: string, pos: nat, ms: seq<Match>, i: nat, j: nat)
    requires InOrder(s, pos, ms) && i < j < |ms|
    ensures ms[i].end <= ms[j].start
    decreases |ms|
  {
    if i == 0 {
      InOrderAfter(s, ms[0].end, ms[1..], j - 1);
    } else {
      InOrderSeparated(s, ms[0].end, ms[1..], i - 1, j - 1);
    }
  }

  /** Where the pattern matches at `p`, the search from any earlier position finds a match
      that starts no later than `p`. */
  lemma {:induction false} NextMatchReaches(s: string, pos: nat, pat: Pattern, p: nat)
    requires pos <= p && MatchAt(s, p, pat).Some?
    ensures NextMatch(s, pos, pat).Some? && NextMatch(s, pos, pat).value.start <= p
  {
  }

  /** `re.findall` skips no match: wherever the pattern matches at or after `pos`, outside
      every match already reported, a match starting there is reported. */
  lemma {:induction false} FindAllComplete(s: string, pos: nat, pat: Pattern, p: nat)
    requires pos <= |s| && pos <= p && MatchAt(s, p, pat).Some?
    requires Uncovered(FindAll(s, pos, pat), p)
    ensures exists i :: 0 <= i < |FindAll(s, pos, pat)| && FindAll(s, pos, pat)[i].start == p
    decreases |s| - pos
  {
    var ms := FindAll(s, pos, pat);
    NextMatchReaches(s, pos, pat, p);
    var m := NextMatch(s, pos, pat).value;
    var rest := FindAll(s, m.end, pat);
    assert ms == [m] + rest;
    if m.start < p {
      assert ms[1..] == rest;
      UncoveredTail(ms, p);
      FindAllComplete(s, m.end, pat, p);
      StartInTail(ms, p);
    } else {
      assert ms[0].start == p;
    }
  }

  lemma {:induction false} UncoveredTail(ms: seq<Match>, p: nat)
    requires |ms| > 0 && Uncovered(ms, p)
    ensures Uncovered(ms[1..], p)
  {
    forall i | 0 <= i < |ms[1..]| ensures !(ms[1..][i].start < p < ms[1..][i].end) {
      assert ms[1..][i] == ms[i + 1];
    }
  }

  lemma {:induction false} StartInTail(ms: seq<Match>, p: nat)
    requires |ms| > 0 && exists j :: 0 <= j < |ms[1..]| && ms[1..][j].start == p
    ensures exists i :: 0 <= i < |ms| && ms[i].start == p
  {
    var j :| 0 <= j < |ms[1..]| && ms[1..][j].start == p;
    assert ms[j + 1].start == p;
  }

  /** A position is the start of a reported match exactly when the pattern matches there
      and the position lies inside no reported match. */
  lemma {:induction false} FindAllExactly(s: string, pat: Pattern, p: nat)
    ensures var ms := FindAll(s, 0, pat);
            (exists i :: 0 <= i < |ms| && ms[i].start == p)
            <==> MatchAt(s, p, pat).Some? && Uncovered(ms, p)
  {
    var ms := FindAll(s, 0, pat);
    if exists i :: 0 <= i < |ms| && ms[i].start == p {
      var i :| 0 <= i < |ms| && ms[i].start == p;
      StartUncovered(s, 0, ms, i);
    }
    if MatchAt(s, p, pat).Some? && Uncovered(ms, p) {
      FindAllComplete(s, 0, pat, p);
    }
  }

  /** Matches in order do not overlap, so none covers the start of another. */
  lemma {:induction false} StartUncovered(s: string, pos: nat, ms: seq<Match>, i: nat)
    requires InOrder(s, pos, ms) && i < |ms|
    ensures Uncovered(ms, ms[i].start)
  {
    forall j | 0 <= j < |ms| ensures !(ms[j].start < ms[i].start < ms[j].end) {
      if j < i {
        InOrderSeparated(s, pos, ms, j, i);
      } else if i < j {
        InOrderAfter(s, pos, ms, i);
        InOrderSeparated(s, pos, ms, i, j);
      }
    }
  }

  /** The (group 1, group 2) pairs of a list of matches. */
  function Groups(ms: seq<Match>): (pairs: seq<(string, string)>)
    ensures |pairs| == |ms|
    ensures forall i :: 0 <= i < |ms| ==> pairs[i] == (ms[i].text, ms[i].url)
  {
    seq(|ms|, i requires 0 <= i < |ms| => (ms[i].text, ms[i].url))
  }

  lemma {:induction false} GroupsUnfold(ms: seq<Match>)
    requires |ms| > 0
    ensures Groups(ms) == [(ms[0].text, ms[0].url)] + Groups(ms[1..])
  {
    assert forall i :: 0 < i < |ms| ==> ms[1..][i - 1] == ms[i];
  }

  /** `extract_markdown_images`: `re.findall` of the image pattern. */
  function ExtractMarkdownImages(text: string): seq<(string, string)> {
    Groups(FindAll(text, 0, ImagePattern))
  }

  /** `extract_markdown_links`: `re.findall` of the link pattern. */
  function ExtractMarkdownLinks(text: string): seq<(string, string)> {
    Groups(FindAll(text, 0, LinkPattern))
  }

  /** The images reported, in text order, are the groups of exactly those places where
      the image pattern matches and that lie inside no earlier image. */
  lemma {:induction false} ImagesExactly(text: string, p: nat)
    ensures var ms := FindAll(text, 0, ImagePattern);
            && InOrder(text, 0, ms)
            && ExtractMarkdownImages(text) == Groups(ms)
            && ((exists i :: 0 <= i < |ms| && ms[i].start == p)
                <==> MatchAt(text, p, ImagePattern).Some? && Uncovered(ms, p))
            && forall i :: 0 <= i < |ms| ==> MatchAt(text, ms[i].start, ImagePattern) == Some(ms[i])
  {
    FindAllExactly(text, ImagePattern, p);
  }

  /** The links reported, in text order, are the groups of exactly those places where
      the link pattern matches and that lie inside no earlier link. */
  lemma {:induction false} LinksExactly(text: string, p: nat)
    ensures var ms := FindAll(text, 0, LinkPattern);
            && InOrder(text, 0, ms)
            && ExtractMarkdownLinks(text) == Groups(ms)
            && ((exists i :: 0 <= i < |ms| && ms[i].start == p)
                <==> MatchAt(text, p, LinkPattern).Some? && Uncovered(ms, p))
            && forall i :: 0 <= i < |ms| ==> MatchAt(text, ms[i].start, LinkPattern) == Some(ms[i])
  {
    FindAllExactly(text, LinkPattern, p);
  }

  /** Where the pattern's opening occurs nowhere, it finds nothing. */
  lemma {:induction false} FindAllWithoutOpening(s: string, pos: nat, pat: Pattern)
    requires pos <= |s|
    requires forall p: nat :: !Opens(s, p, pat)
    ensures FindAll(s, pos, pat) == []
  {
    var m := NextMatch(s, pos, pat);
    assert m.Some? ==> MatchAt(s, m.value.start, pat).Some?;
  }

  /** Without `![` in the text no image opening occurs. */
  lemma {:induction false} NoImageOpening(text: string)
    requires IndexOf(text, "![").None?
    ensures forall p: nat :: !Opens(text, p, ImagePattern)
  {
    forall p: nat ensures !Opens(text, p, ImagePattern) {
      if p + 1 < |text| {
        assert !OccursAt(text, "![", p);
        assert text[p..p + 2] == [text[p], text[p + 1]];
      }
    }
  }

  /** Without an opening `![` anywhere (the empty text, plain text, or text whose only
      markup is `[text](url)` links) there is no image. */
  lemma {:induction false} NoImageWithoutOpening(text: string)
    requires IndexOf(text, "![").None?
    ensures ExtractMarkdownImages(text) == []
  {
    NoImageOpening(text);
    FindAllWithoutOpening(text, 0, ImagePattern);
  }

  /** Without a `[` anywhere there is no link. */
  lemma {:induction false} NoLinkWithoutBracket(text: string)
    requires forall k :: 0 <= k < |text| ==> text[k] != '['
    ensures ExtractMarkdownLinks(text) == []
  {
    FindAllWithoutOpening(text, 0, LinkPattern);
  }

  /** No reported link starts right after a `!`, so image syntax is never reported as a
      link, and every reported link spans `[text](url)` in the text. */
  lemma {:induction false} LinksAreNotImages(text: string, i: nat)
    requires i < |ExtractMarkdownLinks(text)|
    ensures var m := FindAll(text, 0, LinkPattern)[i];
            && (m.start == 0 || text[m.start - 1] != '!')
            && m.end <= |text|
            && text[m.start..m.end] == "[" + m.text + "](" + m.url + ")"
            && ExtractMarkdownLinks(text)[i] == (m.text, m.url)
  {
    var m := FindAll(text, 0, LinkPattern)[i];
    assert MatchAt(text, m.start, LinkPattern) == Some(m);
  }

  /** Every reported image spans `![alt](url)` in the text. */
  lemma {:induction false} ImagesAreSpelledOut(text: string, i: nat)
    requires i < |ExtractMarkdownImages(text)|
    ensures var m := FindAll(text, 0, ImagePattern)[i];
            && m.end <= |text| && m.start + 1 < |text|
            && text[m.start..m.end] == "![" + m.text + "](" + m.url + ")"
            && ExtractMarkdownImages(text)[i] == (m.text, m.url)
  {
    var m := FindAll(text, 0, ImagePattern)[i];
    assert MatchAt(text, m.start, ImagePattern) == Some(m);
  }
}
