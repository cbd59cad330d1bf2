/**
 * What the two markup passes promise: the anchored matcher finds exactly the spans the
 * regular expressions describe, text without a complete span passes through unchanged,
 * stripping never lengthens text, and the worked examples of the component.
 */
module MarkupProperties {
  import opened Wrappers
  import opened Markup

  /** `IndexOf` lands on the first `c` past a run that holds none. */
  lemma IndexOfAfterRun(s: String, c: char, from: nat, run: String)
    requires from + |run| < |s| && s[from..from + |run|] == run && c !in run && s[from + |run|] == c
    ensures IndexOf(s, c, from) == from + |run|
  {
  }

  /**
   * Completeness of the matcher: whenever `s` starts with the source text of a match
   * the pattern allows, `MatchAt` finds exactly that match. With the soundness stated by
   * `MatchAt`'s own contract, `MatchAt(p, s) == Some(m)` holds exactly when `s` starts
   * with `Source(p, m)` and `m` is well formed.
   */
  lemma MatchAtComplete(p: Pattern, m: Match, s: String)
    requires WellFormed(p, m) && Source(p, m) <= s
    ensures MatchAt(p, s) == Some(m)
  {
    match p
    case Bold => BoldComplete(m, s);
    case Italic => ItalicComplete(m, s);
    case Link => LinkComplete(m, s);
  }

  /** `MatchAtComplete` for the bold pattern. */
  lemma BoldComplete(m: Match, s: String)
    requires WellFormed(Bold, m) && Source(Bold, m) <= s
    ensures MatchAt(Bold, s) == Some(m)
  {
    var n := |m.text|;
    assert s[..n + 4] == "**" + m.text + "**";
    assert s[0] == '*' && s[1] == '*' && s[n + 2] == '*' && s[n + 3] == '*';
    assert s[2..2 + n] == m.text;
    IndexOfAfterRun(s, '*', 2, m.text);
  }

  /** `MatchAtComplete` for the italic pattern. */
  lemma ItalicComplete(m: Match, s: String)
    requires WellFormed(Italic, m) && Source(Italic, m) <= s
    ensures MatchAt(Italic, s) == Some(m)
  {
    var n := |m.text|;
    assert s[..n + 2] == "_" + m.text + "_";
    assert s[0] == '_' && s[n + 1] == '_';
    assert s[1..1 + n] == m.text;
    IndexOfAfterRun(s, '_', 1, m.text);
  }

  /** `MatchAtComplete` for the link pattern. */
  lemma LinkComplete(m: Match, s: String)
    requires WellFormed(Link, m) && Source(Link, m) <= s
    ensures MatchAt(Link, s) == Some(m)
  {
    var e := 1 + |m.text|;
    var f := e + 2 + |m.href|;
    LinkShape(m, s);
    IndexOfAfterRun(s, ']', 1, m.text);
    IndexOfAfterRun(s, ')', e + 2, m.href);
    assert IndexOf(s, ']', 1) == e && IndexOf(s, ')', e + 2) == f;
  }

  /** Where the delimiters and the two groups of a link sit in text that starts with it. */
  lemma LinkShape(m: Match, s: String)
    requires Source(Link, m) <= s
    ensures var e := 1 + |m.text|; var f := e + 2 + |m.href|;
      && f < |s| && s[0] == '[' && s[e] == ']' && s[e + 1] == '(' && s[f] == ')'
      && s[1..e] == m.text && s[e + 2..f] == m.href
  {
    var e := 1 + |m.text|;
    var f := e + 2 + |m.href|;
    var src := Source(Link, m);
    assert src == ("[" + m.text) + ("](" + (m.href + ")"));
    assert src[..e] == "[" + m.text;
    assert src[e..] == "](" + m.href + ")";
    assert s[..e] == src[..e] && s[e..f + 1] == src[e..];
  }

  /** Where no match starts, a pass copies the first character and scans on from the next. */
  lemma PassCopiesHead(p: Pattern, t: Target, s: String)
    requires s != [] && MatchAt(p, s) == None
    ensures Pass(p, t, s) == [s[0]] + Pass(p, t, s[1..])
  {
  }

  /** A match can only start at its opening character. */
  lemma MatchNeedsOpener(p: Pattern, s: String)
    requires s == [] || s[0] != Opener(p)
    ensures MatchAt(p, s) == None
  {
  }

  /** `NoSpan` read one character at a time. */
  lemma NoSpanCons(p: Pattern, s: String)
    requires s != []
    ensures NoSpan(p, s) <==> MatchAt(p, s).None? && NoSpan(p, s[1..])
  {
    if MatchAt(p, s).None? && NoSpan(p, s[1..]) {
      forall i | 0 <= i < |s| ensures MatchAt(p, s[i..]).None? {
        if i > 0 {
          assert s[i..] == s[1..][i - 1..];
        }
      }
    }
    if NoSpan(p, s) {
      assert s[0..] == s;
      forall i | 0 <= i < |s[1..]| ensures MatchAt(p, s[1..][i..]).None? {
        assert s[1..][i..] == s[i + 1..];
      }
    }
  }

  /** Text in which no match starts comes out of a pass unchanged. */
  lemma {:induction false} PassNoSpan(p: Pattern, t: Target, s: String)
    requires NoSpan(p, s)
    ensures Pass(p, t, s) == s
    decreases |s|
  {
    if s != [] {
      NoSpanCons(p, s);
      PassNoSpan(p, t, s[1..]);
    }
  }

  /** A prefix that holds no opening character is copied as it is. */
  lemma {:induction false} PassSkipsPrefix(p: Pattern, t: Target, a: String, b: String)
    requires Opener(p) !in a
    ensures Pass(p, t, a + b) == a + Pass(p, t, b)
    decreases |a|
  {
    if a != [] {
      MatchNeedsOpener(p, a + b);
      assert (a + b)[0] == a[0] && (a + b)[1..] == a[1..] + b;
      assert Pass(p, t, a + b) == [a[0]] + Pass(p, t, a[1..] + b);
      PassSkipsPrefix(p, t, a[1..], b);
      assert [a[0]] + (a[1..] + Pass(p, t, b)) == a + Pass(p, t, b);
    } else {
      assert a + b == b;
    }
  }

  /** A match at the front is replaced and the pass resumes right after it. */
  lemma PassAtMatch(p: Pattern, t: Target, m: Match, rest: String)
    requires WellFormed(p, m)
    ensures Pass(p, t, Source(p, m) + rest) == Replacement(p, t, m) + Pass(p, t, rest)
  {
    var s := Source(p, m) + rest;
    MatchAtComplete(p, m, s);
    assert s[|Source(p, m)|..] == rest;
  }

  /** The plain replacement is shorter than the text it replaces. */
  lemma PlainShrinks(p: Pattern, m: Match)
    ensures |Replacement(p, Plain, m)| < |Source(p, m)|
  {
  }

  /** The HTML replacement is longer than the text it replaces. */
  lemma HtmlGrows(p: Pattern, m: Match)
    ensures |Replacement(p, Html, m)| > |Source(p, m)|
  {
  }

  /**
   * A plain pass never lengthens text, and leaves its length unchanged exactly when no
   * span of the pattern starts anywhere in it.
   */
  lemma {:induction false} PlainPassLength(p: Pattern, s: String)
    ensures |Pass(p, Plain, s)| <= |s|
    ensures |Pass(p, Plain, s)| == |s| <==> NoSpan(p, s)
    decreases |s|
  {
    if s != [] {
      NoSpanCons(p, s);
      match MatchAt(p, s)
      case Some(m) =>
        PlainShrinks(p, m);
        PlainPassLength(p, s[|Source(p, m)|..]);
      case None =>
        PlainPassLength(p, s[1..]);
    }
  }

  /**
   * An HTML pass never shortens text, and leaves its length unchanged exactly when no
   * span of the pattern starts anywhere in it.
   */
  lemma {:induction false} HtmlPassLength(p: Pattern, s: String)
    ensures |Pass(p, Html, s)| >= |s|
    ensures |Pass(p, Html, s)| == |s| <==> NoSpan(p, s)
    decreases |s|
  {
    if s != [] {
      NoSpanCons(p, s);
      match MatchAt(p, s)
      case Some(m) =>
        HtmlGrows(p, m);
        HtmlPassLength(p, s[|Source(p, m)|..]);
      case None =>
        HtmlPassLength(p, s[1..]);
    }
  }

  /** `stripMarkdownLinks` never makes text longer. */
  lemma StripNeverLonger(s: String)
    ensures |StripMarkdownLinks(s)| <= |s|
  {
    var b := Pass(Bold, Plain, s);
    var i := Pass(Italic, Plain, b);
    PlainPassLength(Bold, s);
    PlainPassLength(Italic, b);
    PlainPassLength(Link, i);
  }

  /**
   * `stripMarkdownLinks` returns its input unchanged exactly when the input holds no
   * complete bold, italic or link span.
   */
  lemma StripFixedIff(s: String)
    ensures StripMarkdownLinks(s) == s <==> IsPlain(s)
  {
    var b := Pass(Bold, Plain, s);
    var i := Pass(Italic, Plain, b);
    PlainPassLength(Bold, s);
    PlainPassLength(Italic, b);
    PlainPassLength(Link, i);
    if StripMarkdownLinks(s) == s {
      assert NoSpan(Bold, s);
      PassNoSpan(Bold, Plain, s);
      assert NoSpan(Italic, s);
      PassNoSpan(Italic, Plain, s);
    }
    if IsPlain(s) {
      PassNoSpan(Bold, Plain, s);
      PassNoSpan(Italic, Plain, s);
      PassNoSpan(Link, Plain, s);
    }
  }

  /**
   * `markdownToHTML` returns its input unchanged exactly when the input holds no
   * complete bold, italic or link span; otherwise it makes the text strictly longer.
   */
  lemma HtmlFixedIff(s: String)
    ensures |MarkdownToHtml(s)| >= |s|
    ensures MarkdownToHtml(s) == s <==> IsPlain(s)
    ensures !IsPlain(s) ==> |MarkdownToHtml(s)| > |s|
  {
    var b := Pass(Bold, Html, s);
    var i := Pass(Italic, Html, b);
    HtmlPassLength(Bold, s);
    HtmlPassLength(Italic, b);
    HtmlPassLength(Link, i);
    if NoSpan(Bold, s) {
      PassNoSpan(Bold, Html, s);
      if NoSpan(Italic, s) {
        PassNoSpan(Italic, Html, s);
        if NoSpan(Link, s) {
          PassNoSpan(Link, Html, s);
        }
      }
    }
  }

}

/**
 * The component's worked examples, stated for every choice of the words in them, and
 * inputs that show how the passes interact. Each example is proved one pass at a time
 * (the lemmas named `...Step`) and the three passes are then chained.
 */
module MarkupExamples {
  import opened Wrappers
  import opened Markup
  import opened MarkupProperties

  /** Text in which none of the three constructs can start. */
  predicate Inert(s: String) {
    '*' !in s && '_' !in s && '[' !in s
  }

  /** Text with no opening character of `p` passes through unchanged. */
  lemma PassNoOpener(p: Pattern, t: Target, s: String)
    requires Opener(p) !in s
    ensures Pass(p, t, s) == s
  {
    PassSkipsPrefix(p, t, s, []);
    assert s + [] == s;
  }

  /** A whole input that is one span becomes that span's replacement. */
  lemma PassOneSpan(p: Pattern, t: Target, m: Match)
    requires WellFormed(p, m)
    ensures Pass(p, t, Source(p, m)) == Replacement(p, t, m)
  {
    assert Source(p, m) + [] == Source(p, m);
    PassAtMatch(p, t, m, []);
    assert Replacement(p, t, m) + [] == Replacement(p, t, m);
  }

  /** `stripMarkdownLinks` from the results of its three passes. */
  lemma StripChain(s: String, b: String, i: String, l: String)
    requires Pass(Bold, Plain, s) == b && Pass(Italic, Plain, b) == i && Pass(Link, Plain, i) == l
    ensures StripMarkdownLinks(s) == l
  {
  }

  /** `markdownToHTML` from the results of its three passes. */
  lemma HtmlChain(s: String, b: String, i: String, l: String)
    requires Pass(Bold, Html, s) == b && Pass(Italic, Html, b) == i && Pass(Link, Html, i) == l
    ensures MarkdownToHtml(s) == l
  {
  }

  /** How the input of `StripExample` splits around its bold span. */
  lemma StripExampleBoldShape(b: String, x: String, i: String, y: String, l: String, u: String)
    requires Inert(x) && Inert(i) && Inert(y) && Inert(l) && '*' !in u
    ensures "**" + b + "**" + x + "_" + i + "_" + y + "[" + l + "](" + u + ")"
         == Source(Bold, Match(b, [])) + (x + "_" + i + "_" + y + "[" + l + "](" + u + ")")
    ensures b + (x + "_" + i + "_" + y + "[" + l + "](" + u + ")")
         == b + x + "_" + i + "_" + y + "[" + l + "](" + u + ")"
  {
  }

  /** After its bold span, the input of `StripExample` holds no `*`. */
  lemma StripExampleBoldFree(x: String, i: String, y: String, l: String, u: String)
    requires Inert(x) && Inert(i) && Inert(y) && Inert(l) && '*' !in u
    ensures '*' !in x + "_" + i + "_" + y + "[" + l + "](" + u + ")"
  {
  }

  /** How the output of the bold pass of `StripExample` splits around its italic span. */
  lemma StripExampleItalicShape(b: String, x: String, i: String, y: String, l: String, u: String)
    requires Inert(y) && Inert(l) && '_' !in u
    ensures b + x + "_" + i + "_" + y + "[" + l + "](" + u + ")"
         == (b + x) + (Source(Italic, Match(i, [])) + (y + "[" + l + "](" + u + ")"))
    ensures (b + x) + (i + (y + "[" + l + "](" + u + ")")) == b + x + i + y + "[" + l + "](" + u + ")"
    ensures '_' !in y + "[" + l + "](" + u + ")"
  {
  }

  /** The bold pass of `StripExample`. */
  lemma StripExampleBoldStep(b: String, x: String, i: String, y: String, l: String, u: String)
    requires b != [] && i != [] && l != [] && u != []
    requires Inert(b) && Inert(x) && Inert(i) && Inert(y) && Inert(l) && ']' !in l
    requires '*' !in u && '_' !in u && ')' !in u
    ensures Pass(Bold, Plain, "**" + b + "**" + x + "_" + i + "_" + y + "[" + l + "](" + u + ")")
         == b + x + "_" + i + "_" + y + "[" + l + "](" + u + ")"
  {
    var r := x + "_" + i + "_" + y + "[" + l + "](" + u + ")";
    StripExampleBoldShape(b, x, i, y, l, u);
    StripExampleBoldFree(x, i, y, l, u);
    PassAtMatch(Bold, Plain, Match(b, []), r);
    PassNoOpener(Bold, Plain, r);
  }

  /** The italic pass of `StripExample`. */
  lemma StripExampleItalicStep(b: String, x: String, i: String, y: String, l: String, u: String)
    requires b != [] && i != [] && l != [] && u != []
    requires Inert(b) && Inert(x) && Inert(i) && Inert(y) && Inert(l) && ']' !in l
    requires '*' !in u && '_' !in u && ')' !in u
    ensures Pass(Italic, Plain, b + x + "_" + i + "_" + y + "[" + l + "](" + u + ")")
         == b + x + i + y + "[" + l + "](" + u + ")"
  {
    var r := y + "[" + l + "](" + u + ")";
    StripExampleItalicShape(b, x, i, y, l, u);
    PassSkipsPrefix(Italic, Plain, b + x, Source(Italic, Match(i, [])) + r);
    PassAtMatch(Italic, Plain, Match(i, []), r);
    PassNoOpener(Italic, Plain, r);
  }

  /** The link pass of `StripExample`. */
  lemma StripExampleLinkStep(b: String, x: String, i: String, y: String, l: String, u: String)
    requires b != [] && i != [] && l != [] && u != []
    requires Inert(b) && Inert(x) && Inert(i) && Inert(y) && Inert(l) && ']' !in l
    requires '*' !in u && '_' !in u && ')' !in u
    ensures Pass(Link, Plain, b + x + i + y + "[" + l + "](" + u + ")") == b + x + i + y + l
  {
    assert b + x + i + y + "[" + l + "](" + u + ")" == (b + x + i + y) + Source(Link, Match(l, u));
    PassSkipsPrefix(Link, Plain, b + x + i + y, Source(Link, Match(l, u)));
    PassOneSpan(Link, Plain, Match(l, u));
  }

  /**
   * Every construct is reduced to its display text: with `b`, `i`, `l` = "Bold",
   * "italic", "link", `x`, `y` = " and " and `u` = "http://x" the input is
   * "**Bold** and _italic_ and [link](http://x)" and the result "Bold and italic and link".
   */
  lemma StripExample(b: String, x: String, i: String, y: String, l: String, u: String)
    requires b != [] && i != [] && l != [] && u != []
    requires Inert(b) && Inert(x) && Inert(i) && Inert(y) && Inert(l) && ']' !in l
    requires '*' !in u && '_' !in u && ')' !in u
    ensures StripMarkdownLinks("**" + b + "**" + x + "_" + i + "_" + y + "[" + l + "](" + u + ")")
         == b + x + i + y + l
  {
    StripExampleBoldStep(b, x, i, y, l, u);
    StripExampleItalicStep(b, x, i, y, l, u);
    StripExampleLinkStep(b, x, i, y, l, u);
    StripChain("**" + b + "**" + x + "_" + i + "_" + y + "[" + l + "](" + u + ")",
      b + x + "_" + i + "_" + y + "[" + l + "](" + u + ")",
      b + x + i + y + "[" + l + "](" + u + ")",
      b + x + i + y + l);
  }

  /**
   * With its words bound, "**Bold** and _italic_ and [link](http://x)" strips to
   * "Bold and italic and link".
   */
  lemma StripLiteralExample(b: String, x: String, i: String, l: String, u: String)
    requires b == "Bold" && x == " and " && i == "italic" && l == "link" && u == "http://x"
    ensures StripMarkdownLinks("**" + b + "**" + x + "_" + i + "_" + x + "[" + l + "](" + u + ")")
         == b + x + i + x + l
  {
    StripExample(b, x, i, x, l, u);
  }

  /** The text a bold span becomes holds no italic or link opener. */
  lemma StrongIsInert(b: String)
    requires Inert(b)
    ensures '_' !in "<strong>" + b + "</strong>" && '[' !in "<strong>" + b + "</strong>"
  {
  }

  /** A bold span becomes a `strong` element: "**Bold**" becomes "<strong>Bold</strong>". */
  lemma HtmlBoldExample(b: String)
    requires b != [] && Inert(b)
    ensures MarkdownToHtml("**" + b + "**") == "<strong>" + b + "</strong>"
  {
    var h := "<strong>" + b + "</strong>";
    PassOneSpan(Bold, Html, Match(b, []));
    StrongIsInert(b);
    PassNoOpener(Italic, Html, h);
    PassNoOpener(Link, Html, h);
    HtmlChain("**" + b + "**", h, h, h);
  }

  /** The anchor element the component makes of a link with display text `l` and target `u`. */
  function Anchor(l: String, u: String): String {
    "<a href=\"" + u
    + "\" target=\"_blank\" rel=\"noopener noreferrer\" class=\"text-accent hover:text-secondary transition-colors duration-150\">"
    + l + "</a>"
  }

  /** The text of a link holds no bold or italic opener. */
  lemma LinkIsInert(l: String, u: String)
    requires Inert(l) && '*' !in u && '_' !in u
    ensures '*' !in "[" + l + "](" + u + ")" && '_' !in "[" + l + "](" + u + ")"
  {
  }

  /**
   * A link becomes an anchor that opens in a new context, with its target as `href`:
   * "[go](http://x)" becomes `<a href="http://x" target="_blank" ...>go</a>`.
   */
  lemma HtmlLinkExample(l: String, u: String)
    requires l != [] && u != [] && Inert(l) && ']' !in l
    requires '*' !in u && '_' !in u && ')' !in u
    ensures MarkdownToHtml("[" + l + "](" + u + ")") == Anchor(l, u)
  {
    var s := "[" + l + "](" + u + ")";
    LinkIsInert(l, u);
    PassNoOpener(Bold, Html, s);
    PassNoOpener(Italic, Html, s);
    PassOneSpan(Link, Html, Match(l, u));
    HtmlChain(s, s, s, Anchor(l, u));
  }

  /** The bold pass leaves an unterminated bold marker alone. */
  lemma UnterminatedBoldStep(t: Target, w: String)
    requires Inert(w)
    ensures Pass(Bold, t, "**" + w) == "**" + w
  {
    var s := "**" + w;
    assert s[2..] == w;
    assert MatchAt(Bold, s) == None by {
      assert IndexOf(s, '*', 2) == |s|;
    }
    assert MatchAt(Bold, s[1..]) == None;
    assert s[1..][1..] == w;
    PassNoOpener(Bold, t, w);
  }

  /** An unterminated bold marker holds no italic or link opener. */
  lemma UnterminatedIsInert(w: String)
    requires Inert(w)
    ensures '_' !in "**" + w && '[' !in "**" + w
  {
  }

  /**
   * An unterminated bold marker is left as literal text by both passes: for example
   * "**unterminated bold".
   */
  lemma UnterminatedBoldExample(w: String)
    requires Inert(w)
    ensures StripMarkdownLinks("**" + w) == "**" + w
    ensures MarkdownToHtml("**" + w) == "**" + w
  {
    var s := "**" + w;
    UnterminatedBoldStep(Plain, w);
    UnterminatedBoldStep(Html, w);
    UnterminatedIsInert(w);
    PassNoOpener(Italic, Plain, s);
    PassNoOpener(Link, Plain, s);
    PassNoOpener(Italic, Html, s);
    PassNoOpener(Link, Html, s);
    StripChain(s, s, s, s);
    HtmlChain(s, s, s, s);
  }

  /** With its word bound, "**Bold**" becomes "<strong>Bold</strong>". */
  lemma BoldLiteralExample(b: String)
    requires b == "Bold"
    ensures MarkdownToHtml("**" + b + "**") == "<strong>" + b + "</strong>"
  {
    HtmlBoldExample(b);
  }

  /** The word of the unterminated example holds no opener. */
  lemma UnterminatedWordIsInert()
    ensures Inert("unterminated bold")
  {
  }

  /** "**unterminated bold" is "**" followed by its word. */
  lemma UnterminatedLiteralShape(s: String)
    requires s == "**unterminated bold"
    ensures "**" + "unterminated bold" == s
  {
  }

  /** "**unterminated bold" is left unchanged by both passes. */
  lemma UnterminatedLiteralExample(s: String)
    requires s == "**unterminated bold"
    ensures StripMarkdownLinks(s) == s && MarkdownToHtml(s) == s
  {
    UnterminatedWordIsInert();
    UnterminatedLiteralShape(s);
    UnterminatedBoldExample("unterminated bold");
  }

  /** `*` followed by a character other than `*` starts no bold span. */
  lemma BoldStarNoMatch(x: char, rest: String)
    requires x != '*'
    ensures MatchAt(Bold, ['*', x] + rest) == None
  {
    var s := ['*', x] + rest;
    assert s[1] == x;
  }

  /** At the start of "**_a*_*" the first `*` after the opener is followed by `_`, so no bold span starts there. */
  lemma NotIdempotentNoBold(a: String)
    requires Inert(a)
    ensures MatchAt(Bold, "**_" + a + "*_*") == None
  {
    var s := "**_" + a + "*_*";
    var n := |a|;
    assert s[2..3 + n] == "_" + a && s[3 + n] == '*' && s[4 + n] == '_';
    IndexOfAfterRun(s, '*', 2, "_" + a);
  }

  /** How "**_a*_*" reads as the pieces the bold pass goes through. */
  lemma NotIdempotentPieces(a: String)
    ensures ("**_" + a + "*_*")[0] == '*'
    ensures ("**_" + a + "*_*")[1..] == ['*', '_'] + (a + "*_*")
    ensures (['*', '_'] + (a + "*_*"))[1..] == ("_" + a) + "*_*"
    ensures ['*'] + (['*'] + (("_" + a) + "*_*")) == "**_" + a + "*_*"
  {
  }

  /** The tail "*_*" holds no bold span. */
  lemma StarUnderscoreStar(t: Target)
    ensures Pass(Bold, t, "*_*") == "*_*"
  {
    BoldStarNoMatch('_', "*");
    assert "*_*" == ['*', '_'] + "*" && "*_*"[1..] == "_*" && "_*"[1..] == "*";
    PassCopiesHead(Bold, t, "*_*");
    MatchNeedsOpener(Bold, "_*");
    PassCopiesHead(Bold, t, "_*");
    assert MatchAt(Bold, "*") == None;
    PassCopiesHead(Bold, t, "*");
  }

  /** The bold pass finds no span in "**_a*_*". */
  lemma NotIdempotentBoldStep(a: String)
    requires a != [] && Inert(a)
    ensures Pass(Bold, Plain, "**_" + a + "*_*") == "**_" + a + "*_*"
  {
    var s := "**_" + a + "*_*";
    var s1 := ['*', '_'] + (a + "*_*");
    NotIdempotentNoBold(a);
    NotIdempotentPieces(a);
    PassCopiesHead(Bold, Plain, s);
    BoldStarNoMatch('_', a + "*_*");
    PassCopiesHead(Bold, Plain, s1);
    PassSkipsPrefix(Bold, Plain, "_" + a, "*_*");
    StarUnderscoreStar(Plain);
  }

  /** How "**_a*_*" splits around its italic span `_a*_`, and what replacing it leaves. */
  lemma NotIdempotentShape(a: String)
    requires a != [] && Inert(a)
    ensures WellFormed(Italic, Match(a + "*", []))
    ensures "**_" + a + "*_*" == "**" + (Source(Italic, Match(a + "*", [])) + "*")
    ensures "**" + (Replacement(Italic, Plain, Match(a + "*", [])) + "*") == "**" + a + "**"
  {
    assert "**" + (a + "*" + "*") == "**" + a + "**";
  }

  /** The italic pass turns "**_a*_*" into "**a**". */
  lemma NotIdempotentItalicStep(a: String)
    requires a != [] && Inert(a)
    ensures Pass(Italic, Plain, "**_" + a + "*_*") == "**" + a + "**"
  {
    var m := Match(a + "*", []);
    NotIdempotentShape(a);
    PassSkipsPrefix(Italic, Plain, "**", Source(Italic, m) + "*");
    PassAtMatch(Italic, Plain, m, "*");
    PassNoOpener(Italic, Plain, "*");
  }

  /** "**a**" holds no link opener, and `a` none of the three. */
  lemma BoldWordIsInert(a: String)
    requires Inert(a)
    ensures '[' !in "**" + a + "**"
  {
  }

  /**
   * Stripping is not idempotent: the italic pass can expose a bold span that the bold
   * pass, which ran first, did not see. With `a` = "a", "**_a*_*" strips to "**a**",
   * which strips again to "a".
   */
  lemma StripNotIdempotent(a: String)
    requires a != [] && Inert(a)
    ensures StripMarkdownLinks("**_" + a + "*_*") == "**" + a + "**"
    ensures StripMarkdownLinks("**" + a + "**") == a
  {
    var s := "**_" + a + "*_*";
    var r := "**" + a + "**";
    NotIdempotentBoldStep(a);
    NotIdempotentItalicStep(a);
    BoldWordIsInert(a);
    PassNoOpener(Link, Plain, r);
    StripChain(s, s, r, r);
    PassOneSpan(Bold, Plain, Match(a, []));
    PassNoOpener(Italic, Plain, a);
    PassNoOpener(Link, Plain, a);
    StripChain(r, a, a, a);
  }

  /** How the input of `ItalicRewritesLinkTarget` splits around its italic span. */
  lemma LinkTargetShape(l: String, u: String, e: String, v: String)
    requires '_' !in v
    ensures "[" + l + "](" + u + "_" + e + "_" + v + ")"
         == ("[" + l + "](" + u) + (Source(Italic, Match(e, [])) + (v + ")"))
    ensures ("[" + l + "](" + u) + ("<em>" + e + "</em>" + (v + ")"))
         == "[" + l + "](" + (u + "<em>" + e + "</em>" + v) + ")"
    ensures '_' !in v + ")"
  {
  }

  /** The italic pass of `ItalicRewritesLinkTarget`. */
  lemma LinkTargetItalicStep(l: String, u: String, e: String, v: String)
    requires l != [] && u != [] && e != []
    requires Inert(l) && ']' !in l && Inert(u) && ')' !in u && Inert(e) && ')' !in e && Inert(v) && ')' !in v
    ensures Pass(Italic, Html, "[" + l + "](" + u + "_" + e + "_" + v + ")")
         == "[" + l + "](" + (u + "<em>" + e + "</em>" + v) + ")"
  {
    var mi := Match(e, []);
    var pre := "[" + l + "](" + u;
    LinkTargetShape(l, u, e, v);
    PassSkipsPrefix(Italic, Html, pre, Source(Italic, mi) + (v + ")"));
    PassAtMatch(Italic, Html, mi, v + ")");
    PassNoOpener(Italic, Html, v + ")");
  }

  /** A link whose target holds two underscores has no bold opener. */
  lemma LinkTargetIsBoldFree(l: String, u: String, e: String, v: String)
    requires Inert(l) && Inert(u) && Inert(e) && Inert(v)
    ensures '*' !in "[" + l + "](" + u + "_" + e + "_" + v + ")"
  {
  }

  /** The `em` markup keeps the target free of `)` and non-empty. */
  lemma EmTargetWellFormed(l: String, u: String, e: String, v: String)
    requires l != [] && ']' !in l && ')' !in u && ')' !in e && ')' !in v
    ensures WellFormed(Link, Match(l, u + "<em>" + e + "</em>" + v))
  {
  }

  /**
   * The italic pass runs before the link pass, so underscores in a link target are
   * rewritten into `em` markup inside the `href` attribute: in "[go](http://a_b_c)" the
   * target becomes "http://a<em>b</em>c".
   */
  lemma ItalicRewritesLinkTarget(l: String, u: String, e: String, v: String)
    requires l != [] && u != [] && e != []
    requires Inert(l) && ']' !in l && Inert(u) && ')' !in u && Inert(e) && ')' !in e && Inert(v) && ')' !in v
    ensures MarkdownToHtml("[" + l + "](" + u + "_" + e + "_" + v + ")") ==
      Anchor(l, u + "<em>" + e + "</em>" + v)
  {
    var s := "[" + l + "](" + u + "_" + e + "_" + v + ")";
    var href := u + "<em>" + e + "</em>" + v;
    LinkTargetIsBoldFree(l, u, e, v);
    PassNoOpener(Bold, Html, s);
    LinkTargetItalicStep(l, u, e, v);
    EmTargetWellFormed(l, u, e, v);
    PassOneSpan(Link, Html, Match(l, href));
    HtmlChain(s, s, "[" + l + "](" + href + ")", Anchor(l, href));
  }
}
