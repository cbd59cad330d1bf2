/**
 * The text the panel derives from the entry it shows (`processedContent`): an optional
 * leading bold label, split off by the anchored expression `^\*\*([^*]+)\*\*(:?)\s*`,
 * the body after it, and the plain text of that body that the scramble animation
 * reveals.
 */
module Content {
  import opened Wrappers
  import opened Markup

  /** One displayable entry as the content endpoint delivers it. */
  datatype ContentItem = ContentItem(title: String, content: String, slug: String)

  /**
   * The characters `\s` matches in a JavaScript regular expression: the WhiteSpace and
   * LineTerminator code points of ECMAScript.
   */
  predicate IsJsWhitespace(c: char) {
    c == '\t' || c == '\n' || c == '\U{000B}' || c == '\U{000C}' || c == '\r' || c == ' '
    || c == '\U{00A0}' || c == '\U{1680}' || ('\U{2000}' <= c <= '\U{200A}')
    || c == '\U{2028}' || c == '\U{2029}' || c == '\U{202F}' || c == '\U{205F}'
    || c == '\U{3000}' || c == '\U{FEFF}'
  }

  /** Index of the first non-whitespace character of `s` at or after `from` (`\s*`). */
  function SkipWhitespace(s: String, from: nat): (r: nat)
    requires from <= |s|
    ensures from <= r <= |s|
    ensures r < |s| ==> !IsJsWhitespace(s[r])
    ensures forall k :: from <= k < r ==> IsJsWhitespace(s[k])
    decreases |s| - from
  {
    if from == |s| || !IsJsWhitespace(s[from]) then from else SkipWhitespace(s, from + 1)
  }

  /** The groups of a leading-label match, and the length of the whole match. */
  datatype LabelMatch = LabelMatch(title: String, hasColon: bool, length: nat)

  /**
   * The anchored expression `^\*\*([^*]+)\*\*(:?)\s*`. Its first part is the bold
   * pattern tried at the start; the optional colon and the whitespace are greedy, and
   * both may be empty, so once the bold part matches the whole expression does.
   */
  function MatchLabel(content: String): (r: Option<LabelMatch>)
    ensures r.Some? ==> r.value.length <= |content|
  {
    match MatchAt(Bold, content)
    case None => None
    case Some(m) =>
      var e := |Source(Bold, m)|;
      var colon := e < |content| && content[e] == ':';
      Some(LabelMatch(m.text, colon, SkipWhitespace(content, if colon then e + 1 else e)))
  }

  /** The label part of `processedContent`: its title, colon flag and body. */
  datatype LabelSplit = LabelSplit(title: String, hasColon: bool, body: String)

  /**
   * The two branches of `processedContent` without the plain text: with a label match,
   * its groups and everything after the match; without one, no title, no colon and the
   * whole content.
   */
  function SplitLabel(content: String): LabelSplit {
    match MatchLabel(content)
    case Some(lm) => LabelSplit(lm.title, lm.hasColon, content[lm.length..])
    case None => LabelSplit("", false, content)
  }

  /** What `processedContent` yields: the label, its colon flag, the body and its plain text. */
  datatype Processed = Processed(title: String, hasColon: bool, body: String, stripped: String)

  /** `processedContent` for an entry whose content is `content`. */
  function ProcessContent(content: String): Processed {
    var split := SplitLabel(content);
    Processed(split.title, split.hasColon, split.body, StripMarkdownLinks(split.body))
  }

  /** `processedContent` for the current entry, which is missing when there are no entries. */
  function ProcessItem(current: Option<ContentItem>): Processed {
    match current
    case None => Processed("", false, "", "")
    case Some(item) => ProcessContent(item.content)
  }
}
