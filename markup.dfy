/**
 * The two markup passes of the content panel: `stripMarkdownLinks`, which turns the
 * three supported constructs into their display text, and `markdownToHTML`, which turns
 * them into `strong`, `em` and `a` elements.
 *
 * Each pass is a chain of three global regular-expression replacements, applied in a
 * fixed order: bold `\*\*([^*]+)\*\*`, then italic `_([^_]+)_`, then link
 * `\[([^\]]+)\]\(([^)]+)\)`. Every character class excludes the delimiter that closes
 * it, so each pattern matches at a given position in at most one way; a global replace
 * then scans left to right, replacing a match and resuming after it, or copying one
 * character and trying the next position.
 */
module Markup {
  import opened Wrappers

  type String = seq<char>

  /** The three constructs, in the order the passes apply them. */
  datatype Pattern = Bold | Italic | Link

  /** What a pass replaces a match with: its display text, or an HTML element. */
  datatype Target = Plain | Html

  /** The capture groups of one match: `$1`, and for a link `$2` (empty otherwise). */
  datatype Match = Match(text: String, href: String)

  /** Index of the first `c` in `s` at or after `from`, or `|s|` when there is none. */
  function IndexOf(s: String, c: char, from: nat): (r: nat)
    requires from <= |s|
    ensures from <= r <= |s|
    ensures r < |s| ==> s[r] == c
    ensures forall k :: from <= k < r ==> s[k] != c
    decreases |s| - from
  {
    if from == |s| || s[from] == c then from else IndexOf(s, c, from + 1)
  }

  /** The text a match spans, rebuilt from its groups. */
  function Source(p: Pattern, m: Match): String {
    match p
    case Bold => "**" + m.text + "**"
    case Italic => "_" + m.text + "_"
    case Link => "[" + m.text + "](" + m.href + ")"
  }

  /** The groups a pattern can capture: `[^*]+`, `[^_]+`, or `[^\]]+` and `[^)]+`. */
  predicate WellFormed(p: Pattern, m: Match) {
    match p
    case Bold => m.text != [] && '*' !in m.text && m.href == []
    case Italic => m.text != [] && '_' !in m.text && m.href == []
    case Link => m.text != [] && ']' !in m.text && m.href != [] && ')' !in m.href
  }

  /** The character every match of `p` starts with. */
  function Opener(p: Pattern): char {
    match p
    case Bold => '*'
    case Italic => '_'
    case Link => '['
  }

  /**
   * The regular expression `p` tried at the start of `s` only. A result is the one way
   * the pattern can match there: `s` starts with the match's source text.
   */
  function MatchAt(p: Pattern, s: String): (r: Option<Match>)
    ensures r.Some? ==> WellFormed(p, r.value) && Source(p, r.value) <= s
  {
    match p
    case Bold =>
      if |s| < 2 || s[0] != '*' || s[1] != '*' then None
      else
        var e := IndexOf(s, '*', 2);
        if e > 2 && e + 1 < |s| && s[e + 1] == '*' then
          assert s[..e + 2] == "**" + s[2..e] + "**";
          Some(Match(s[2..e], []))
        else None
    case Italic =>
      if |s| < 1 || s[0] != '_' then None
      else
        var e := IndexOf(s, '_', 1);
        if e > 1 && e < |s| then
          assert s[..e + 1] == "_" + s[1..e] + "_";
          Some(Match(s[1..e], []))
        else None
    case Link =>
      if |s| < 1 || s[0] != '[' then None
      else
        var e := IndexOf(s, ']', 1);
        if e > 1 && e + 1 < |s| && s[e + 1] == '(' then
          var f := IndexOf(s, ')', e + 2);
          if f > e + 2 && f < |s| then
            assert s[..f + 1] == "[" + s[1..e] + "](" + s[e + 2..f] + ")";
            Some(Match(s[1..e], s[e + 2..f]))
          else None
        else None
  }

  /** The replacement strings of the source, with `$1` and `$2` filled in. */
  function Replacement(p: Pattern, t: Target, m: Match): String {
    match t
    case Plain => m.text
    case Html =>
      match p
      case Bold => "<strong>" + m.text + "</strong>"
      case Italic => "<em>" + m.text + "</em>"
      case Link =>
        "<a href=\"" + m.href + AnchorAttributes + m.text + "</a>"
  }

  /** The fixed attributes of the anchor element, from the closing quote of `href` on. */
  const AnchorAttributes: String :=
    "\" target=\"_blank\" rel=\"noopener noreferrer\" class=\"text-accent hover:text-secondary transition-colors duration-150\">"

  /** One global replacement `s.replace(/p/g, ...)`, scanning left to right. */
  function Pass(p: Pattern, t: Target, s: String): String
    decreases |s|
  {
    if s == [] then []
    else
      match MatchAt(p, s)
      case Some(m) => Replacement(p, t, m) + Pass(p, t, s[|Source(p, m)|..])
      case None => [s[0]] + Pass(p, t, s[1..])
  }

  /** `stripMarkdownLinks`: bold, then italic, then link, each to its display text. */
  function StripMarkdownLinks(s: String): String {
    Pass(Link, Plain, Pass(Italic, Plain, Pass(Bold, Plain, s)))
  }

  /** `markdownToHTML`: bold, then italic, then link, each to its HTML element. */
  function MarkdownToHtml(s: String): String {
    Pass(Link, Html, Pass(Italic, Html, Pass(Bold, Html, s)))
  }

  /** No position of `s` starts a match of `p`. */
  predicate NoSpan(p: Pattern, s: String) {
    forall i :: 0 <= i < |s| ==> MatchAt(p, s[i..]).None?
  }

  /** `s` holds no complete bold, italic or link span. */
  predicate IsPlain(s: String) {
    NoSpan(Bold, s) && NoSpan(Italic, s) && NoSpan(Link, s)
  }
}
